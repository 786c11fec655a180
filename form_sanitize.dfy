/** The sanitisers that guard values arriving in a prefill link
    (src/js/form.js:18-60): `sanitizeInput`, a chain of deletions followed by a
    truncation and a trim, and `sanitizeDate`, an exact shape check. */
module FormSanitize {
  import opened Wrappers
  import opened Strings

  /** `decodeURIComponent`: `None` where it throws `URIError`. */
  type UriDecoder = string -> Option<string>

  // ---------------------------------------------------------------------------
  // Tags: .replace(/<[^>]*>/g, '')

  /** The part of `s` after its first `c`. */
  function After(s: string, c: char): (r: string)
    requires c in s
    ensures |r| < |s| && r == s[|s| - |r|..]
  {
    if s[0] == c then s[1..] else After(s[1..], c)
  }

  /** One left-to-right pass of `/<[^>]*>/g`: a `<` that has a `>` somewhere after
      it is deleted together with everything up to and including the first such
      `>`; a `<` with no `>` after it stays. */
  function StripTags(s: string): (r: string)
    ensures |r| <= |s|
    decreases |s|
  {
    if s == [] then []
    else if s[0] == '<' && '>' in s[1..] then StripTags(After(s[1..], '>'))
    else [s[0]] + StripTags(s[1..])
  }

  /** No `<` has a `>` anywhere after it: nothing tag-shaped is left. */
  predicate NoTag(s: string) {
    forall i :: 0 <= i < |s| && s[i] == '<' ==> '>' !in s[i + 1..]
  }

  /** Deleting characters cannot create a tag. */
  lemma {:induction false} NoTagSubseq(r: string, s: string)
    requires Subseq(r, s) && NoTag(s)
    ensures NoTag(r)
    decreases |s|
  {
    if r != [] {
      assert NoTag(s[1..]) by {
        forall i | 0 <= i < |s[1..]| && s[1..][i] == '<'
          ensures '>' !in s[1..][i + 1..]
        {
          assert s[1..][i + 1..] == s[i + 2..];
        }
      }
      if r[0] == s[0] && Subseq(r[1..], s[1..]) {
        NoTagSubseq(r[1..], s[1..]);
        forall i | 0 <= i < |r| && r[i] == '<'
          ensures '>' !in r[i + 1..]
        {
          if i == 0 {
            if '>' in r[1..] {
              SubseqMember(r[1..], s[1..], '>');
            }
          } else {
            assert r[i + 1..] == r[1..][i..];
          }
        }
      } else {
        NoTagSubseq(r, s[1..]);
      }
    }
  }

  lemma {:induction false} StripTagsSubseq(s: string)
    ensures Subseq(StripTags(s), s)
    decreases |s|
  {
    if s != [] {
      if s[0] == '<' && '>' in s[1..] {
        var t := After(s[1..], '>');
        assert StripTags(s) == StripTags(t);
        StripTagsSubseq(t);
        SubseqOfSuffix(StripTags(t), s, |s| - |t|);
      } else {
        assert StripTags(s) == [s[0]] + StripTags(s[1..]);
        StripTagsSubseq(s[1..]);
        SubseqCons(s[0], StripTags(s[1..]), s[1..]);
        assert [s[0]] + s[1..] == s;
      }
    }
  }

  /** After the tag pass no `<` is followed by a `>`. */
  lemma {:induction false} StripTagsLeavesNoTag(s: string)
    ensures NoTag(StripTags(s))
    decreases |s|
  {
    if s != [] {
      if s[0] == '<' && '>' in s[1..] {
        StripTagsLeavesNoTag(After(s[1..], '>'));
      } else {
        var rest := StripTags(s[1..]);
        var r := [s[0]] + rest;
        StripTagsLeavesNoTag(s[1..]);
        forall i | 0 <= i < |r| && r[i] == '<'
          ensures '>' !in r[i + 1..]
        {
          if i == 0 {
            // this `<` has no `>` after it in `s`, and the rest only loses characters
            assert r[1..] == rest;
            if '>' in rest {
              StripTagsSubseq(s[1..]);
              SubseqMember(rest, s[1..], '>');
            }
          } else {
            assert r[i + 1..] == rest[i..];
          }
        }
      }
    }
  }

  // ---------------------------------------------------------------------------
  // .replace(/javascript:/gi, '')

  /** A case-insensitive occurrence of the lower-case ASCII `pat` starts `s`.
      Without the `u` flag only ASCII letters fold, so ASCII lowering is exact. */
  predicate StartsWithFolded(s: string, pat: string) {
    |pat| <= |s| && forall k :: 0 <= k < |pat| ==> LowerChar(s[k]) == pat[k]
  }

  /** One left-to-right pass of `/pat/gi`: every match found while scanning is
      deleted, and scanning resumes after it. */
  function RemoveFolded(s: string, pat: string): (r: string)
    requires pat != []
    ensures |r| <= |s|
    decreases |s|
  {
    if |s| < |pat| then s
    else if StartsWithFolded(s, pat) then RemoveFolded(s[|pat|..], pat)
    else [s[0]] + RemoveFolded(s[1..], pat)
  }

  lemma {:induction false} RemoveFoldedSubseq(s: string, pat: string)
    requires pat != []
    ensures Subseq(RemoveFolded(s, pat), s)
    decreases |s|
  {
    if |s| < |pat| {
      SubseqRefl(s);
    } else if StartsWithFolded(s, pat) {
      var t := s[|pat|..];
      RemoveFoldedSubseq(t, pat);
      SubseqOfSuffix(RemoveFolded(t, pat), s, |pat|);
    } else {
      RemoveFoldedSubseq(s[1..], pat);
      SubseqCons(s[0], RemoveFolded(s[1..], pat), s[1..]);
      assert [s[0]] + s[1..] == s;
    }
  }

  /** Where the pattern does not occur at all, the pass changes nothing. */
  lemma {:induction false} RemoveFoldedNoMatch(s: string, pat: string)
    requires pat != []
    requires forall i :: 0 <= i <= |s| ==> !StartsWithFolded(s[i..], pat)
    ensures RemoveFolded(s, pat) == s
    decreases |s|
  {
    if |s| >= |pat| {
      assert s[0..] == s;
      forall i | 0 <= i <= |s[1..]|
        ensures !StartsWithFolded(s[1..][i..], pat)
      {
        assert s[1..][i..] == s[i + 1..];
      }
      RemoveFoldedNoMatch(s[1..], pat);
    }
  }

  const JavascriptScheme: string := "javascript:"

  /** A character that differs after folding rules out a match. */
  lemma FoldedMismatch(s: string, pat: string, k: nat)
    requires |pat| <= |s| && k < |pat| && LowerChar(s[k]) != pat[k]
    ensures !StartsWithFolded(s, pat)
  {
  }

  /** The lower-case scheme matches itself at the start of any string. */
  lemma SchemeMatches(s: string)
    requires |s| >= 11 && s[..11] == JavascriptScheme
    ensures StartsWithFolded(s, JavascriptScheme)
  {
    forall k | 0 <= k < 11 ensures LowerChar(s[k]) == JavascriptScheme[k] {
      assert s[k] == s[..11][k];
    }
  }

  /** The scheme in any mix of cases is deleted where the pass finds it, and the
      pass goes on after it. */
  lemma MixedCaseSchemeRemoved(h: string, y: string)
    requires Lower(h) == JavascriptScheme
    ensures RemoveFolded(h + y, JavascriptScheme) == RemoveFolded(y, JavascriptScheme)
  {
    var s := h + y;
    forall k | 0 <= k < 11 ensures LowerChar(s[k]) == JavascriptScheme[k] {
      assert s[k] == h[k];
    }
    assert s[11..] == y;
  }

  /** A prefix in which no match starts is copied through unchanged. */
  lemma {:induction false} RemoveFoldedCopiesPrefix(x: string, y: string, pat: string)
    requires pat != []
    requires forall i :: 0 <= i < |x| ==> !StartsWithFolded((x + y)[i..], pat)
    ensures RemoveFolded(x + y, pat) == x + RemoveFolded(y, pat)
    decreases |x|
  {
    if x == [] {
      assert x + y == y;
    } else {
      var s := x + y;
      var t := x[1..] + y;
      assert s[1..] == t;
      assert forall i :: 0 <= i < |x[1..]| ==> !StartsWithFolded(t[i..], pat) by {
        forall i | 0 <= i < |x[1..]|
          ensures !StartsWithFolded(t[i..], pat)
        {
          assert t[i..] == s[i + 1..];
        }
      }
      RemoveFoldedCopiesPrefix(x[1..], y, pat);
      if |s| < |pat| {
        assert RemoveFolded(y, pat) == y;
        assert RemoveFolded(s, pat) == s;
      } else {
        assert !StartsWithFolded(s, pat) by {
          assert s[0..] == s;
        }
        assert RemoveFolded(s, pat) == [s[0]] + RemoveFolded(t, pat);
        AppendCons(x, RemoveFolded(y, pat));
      }
    }
  }

  /** A single pass can assemble a new match out of the pieces around the one it
      deletes: `java` + `javascript:` + `script:` becomes `javascript:`, which a
      second pass would delete. The two pieces are the scheme cut after `java`. */
  lemma RemoveFoldedIsSinglePass(before: string, after: string)
    requires |before| == 4 && before + after == JavascriptScheme
    ensures RemoveFolded(before + (JavascriptScheme + after), JavascriptScheme) == JavascriptScheme
  {
    var pat := JavascriptScheme;
    var s := before + (pat + after);
    assert before == pat[..4] && after == pat[4..] by {
      assert (before + after)[..4] == before && (before + after)[4..] == after;
    }
    forall i | 0 <= i < |before|
      ensures !StartsWithFolded(s[i..], pat)
    {
      if i == 0 {
        FoldedMismatch(s[i..], pat, 4);
      } else {
        FoldedMismatch(s[i..], pat, 0);
      }
    }
    RemoveFoldedCopiesPrefix(before, pat + after, pat);
    SchemeMatches(pat + after);
    assert (pat + after)[11..] == after;
    assert RemoveFolded(pat + after, pat) == RemoveFolded(after, pat) == after;
  }

  /** ... and a second pass deletes what the first one assembled. */
  lemma SecondPassRemovesScheme(s: string)
    requires s == JavascriptScheme
    ensures RemoveFolded(s, JavascriptScheme) == []
  {
    SchemeMatches(s);
    assert s[11..] == [];
  }

  // ---------------------------------------------------------------------------
  // .replace(/on\w+=/gi, '')

  /** The length of the longest prefix of `\w` characters. */
  function WordRun(s: string): (n: nat)
    ensures n <= |s|
    ensures forall i :: 0 <= i < n ==> IsWordChar(s[i])
    ensures n < |s| ==> !IsWordChar(s[n])
  {
    if s != [] && IsWordChar(s[0]) then 1 + WordRun(s[1..]) else 0
  }

  /** The length of an `on\w+=` match at the start of `s`, or 0. Since `=` is no
      `\w`, the greedy `\w+` can only succeed with the whole run of word
      characters. */
  function HandlerAt(s: string): (n: nat)
    ensures n == 0 || (4 <= n <= |s| && s[n - 1] == '=')
  {
    if |s| >= 2 && LowerChar(s[0]) == 'o' && LowerChar(s[1]) == 'n' then
      var run := WordRun(s[2..]);
      if run >= 1 && 2 + run < |s| && s[2 + run] == '=' then 3 + run else 0
    else 0
  }

  /** One left-to-right pass of `/on\w+=/gi`. */
  function RemoveHandlers(s: string): (r: string)
    ensures |r| <= |s|
    decreases |s|
  {
    if s == [] then []
    else if HandlerAt(s) > 0 then RemoveHandlers(s[HandlerAt(s)..])
    else [s[0]] + RemoveHandlers(s[1..])
  }

  lemma {:induction false} RemoveHandlersSubseq(s: string)
    ensures Subseq(RemoveHandlers(s), s)
    decreases |s|
  {
    if s == [] {
      SubseqRefl(s);
    } else if HandlerAt(s) > 0 {
      var t := s[HandlerAt(s)..];
      RemoveHandlersSubseq(t);
      SubseqOfSuffix(RemoveHandlers(t), s, HandlerAt(s));
    } else {
      RemoveHandlersSubseq(s[1..]);
      SubseqCons(s[0], RemoveHandlers(s[1..]), s[1..]);
      assert [s[0]] + s[1..] == s;
    }
  }

  /** A run of word characters ends at the first character that is none. */
  lemma {:induction false} WordRunStops(w: string, z: string)
    requires forall i :: 0 <= i < |w| ==> IsWordChar(w[i])
    requires z != [] && !IsWordChar(z[0])
    ensures WordRun(w + z) == |w|
    decreases |w|
  {
    if w == [] {
      assert w + z == z;
    } else {
      assert (w + z)[1..] == w[1..] + z;
      WordRunStops(w[1..], z);
    }
  }

  /** A handler attribute `on<name>=`, in any case, is an `on\w+=` match of its
      own length. */
  predicate IsHandlerAttribute(h: string) {
    && |h| >= 4 && LowerChar(h[0]) == 'o' && LowerChar(h[1]) == 'n' && h[|h| - 1] == '='
    && forall i :: 2 <= i < |h| - 1 ==> IsWordChar(h[i])
  }

  /** The pass finds a handler attribute where it starts. */
  lemma HandlerAtAttribute(h: string, y: string)
    requires IsHandlerAttribute(h)
    ensures HandlerAt(h + y) == |h|
  {
    var s := h + y;
    var w := h[2..|h| - 1];
    assert s[2..] == w + ([h[|h| - 1]] + y);
    WordRunStops(w, [h[|h| - 1]] + y);
  }

  /** A handler attribute at the start is deleted as a whole. */
  lemma RemoveHandlersAtAttribute(h: string, y: string)
    requires IsHandlerAttribute(h)
    ensures RemoveHandlers(h + y) == RemoveHandlers(y)
  {
    HandlerAtAttribute(h, y);
    assert (h + y)[|h|..] == y;
  }

  /** Text without `o` or `O` followed by a handler attribute: the text is copied,
      the attribute deleted, and the pass goes on after it. */
  lemma {:induction false} RemoveHandlersDeletesAttribute(x: string, h: string, y: string)
    requires forall i :: 0 <= i < |x| ==> x[i] != 'o' && x[i] != 'O'
    requires IsHandlerAttribute(h)
    ensures RemoveHandlers(x + (h + y)) == x + RemoveHandlers(y)
    decreases |x|
  {
    if x == [] {
      assert x + (h + y) == h + y;
      RemoveHandlersAtAttribute(h, y);
    } else {
      var s := x + (h + y);
      assert s[1..] == x[1..] + (h + y);
      assert HandlerAt(s) == 0 by {
        assert s[0] == x[0];
      }
      assert RemoveHandlers(s) == [s[0]] + RemoveHandlers(s[1..]);
      RemoveHandlersDeletesAttribute(x[1..], h, y);
      AppendCons(x, RemoveHandlers(y));
    }
  }

  /** A string with no `o` or `O` holds no handler pattern. */
  lemma {:induction false} RemoveHandlersWithoutO(s: string)
    requires forall i :: 0 <= i < |s| ==> s[i] != 'o' && s[i] != 'O'
    ensures RemoveHandlers(s) == s
    decreases |s|
  {
    if s != [] {
      assert HandlerAt(s) == 0;
      assert forall i :: 0 <= i < |s[1..]| ==> s[1..][i] == s[i + 1];
      RemoveHandlersWithoutO(s[1..]);
    }
  }

  // ---------------------------------------------------------------------------
  // sanitizeInput

  /** The steps after decoding: tags, the `javascript:` scheme and handler
      attributes deleted, the first `maxLength` characters kept, then trimmed. */
  function Clean(decoded: string, maxLength: nat): (r: string)
    ensures |r| <= maxLength
    ensures r == [] || (!IsWhitespace(r[0]) && !IsWhitespace(r[|r| - 1]))
  {
    var noTags := StripTags(decoded);
    var noScheme := RemoveFolded(noTags, JavascriptScheme);
    var noHandlers := RemoveHandlers(noScheme);
    Trim(Take(noHandlers, maxLength))
  }

  /** `sanitizeInput(value, maxLength = 200)`; `None` stands for an argument that
      is not a string. */
  function SanitizeInput(value: Option<string>, decode: UriDecoder, maxLength: nat := 200): (r: string)
    ensures |r| <= maxLength
    ensures r == [] || (!IsWhitespace(r[0]) && !IsWhitespace(r[|r| - 1]))
    ensures value.None? ==> r == []
    ensures value.Some? && decode(value.value).None? ==> r == []
  {
    match value
    case None => []
    case Some(v) =>
      match decode(v)
      case None => []
      case Some(decoded) => Clean(decoded, maxLength)
  }

  /** Every step after decoding only deletes characters, so the result is obtained
      from the decoded value by deletions and holds no `<` followed by a `>`. */
  lemma CleanOnlyDeletes(decoded: string, maxLength: nat)
    ensures Subseq(Clean(decoded, maxLength), decoded)
    ensures NoTag(Clean(decoded, maxLength))
  {
    var noTags := StripTags(decoded);
    var noScheme := RemoveFolded(noTags, JavascriptScheme);
    var noHandlers := RemoveHandlers(noScheme);
    var cut := Take(noHandlers, maxLength);
    var r := Trim(cut);
    StripTagsSubseq(decoded);
    StripTagsLeavesNoTag(decoded);
    RemoveFoldedSubseq(noTags, JavascriptScheme);
    RemoveHandlersSubseq(noScheme);
    SubseqSlice(noHandlers, 0, |cut|);
    assert noHandlers[0..|cut|] == cut;
    TrimSubseq(cut);
    SubseqTrans(r, cut, noHandlers);
    SubseqTrans(r, noHandlers, noScheme);
    SubseqTrans(r, noScheme, noTags);
    NoTagSubseq(r, noTags);
    SubseqTrans(r, noTags, decoded);
  }

  lemma SanitizeInputNoTag(value: Option<string>, decode: UriDecoder, maxLength: nat)
    ensures NoTag(SanitizeInput(value, decode, maxLength))
    ensures value.Some? && decode(value.value).Some? ==>
      Subseq(SanitizeInput(value, decode, maxLength), decode(value.value).value)
  {
    if value.Some? && decode(value.value).Some? {
      CleanOnlyDeletes(decode(value.value).value, maxLength);
    }
  }

  /** When the tag and handler passes and the trim leave their input alone and
      the text is short, the cleaned value is what the scheme pass makes of it. */
  lemma CleanWhenStagesFixed(d: string, maxLength: nat)
    requires |d| <= maxLength
    requires StripTags(d) == d
    requires RemoveHandlers(RemoveFolded(d, JavascriptScheme)) == RemoveFolded(d, JavascriptScheme)
    requires Trim(RemoveFolded(d, JavascriptScheme)) == RemoveFolded(d, JavascriptScheme)
    ensures Clean(d, maxLength) == RemoveFolded(d, JavascriptScheme)
  {
  }

  /** The scheme survives a nested spelling: `javajavascript:script:`, which needs
      no decoding, is sanitised to `javascript:`. */
  lemma SanitizeInputLetsNestedSchemeThrough(before: string, after: string, decode: UriDecoder)
    requires |before| == 4 && before + after == JavascriptScheme
    requires decode(before + (JavascriptScheme + after)) == Some(before + (JavascriptScheme + after))
    ensures SanitizeInput(Some(before + (JavascriptScheme + after)), decode) == JavascriptScheme
  {
    var s := before + (JavascriptScheme + after);
    NestedSchemeHasNoTag(before, after);
    RemoveFoldedIsSinglePass(before, after);
    RemoveHandlersOfScheme();
    TrimOfScheme();
    CleanWhenStagesFixed(s, 200);
  }

  /** The nested spelling has no `<`, so the tag pass keeps it. */
  lemma NestedSchemeHasNoTag(before: string, after: string)
    requires |before| == 4 && before + after == JavascriptScheme
    ensures StripTags(before + (JavascriptScheme + after)) == before + (JavascriptScheme + after)
  {
    var s := before + (JavascriptScheme + after);
    forall i | 0 <= i < |s| ensures s[i] != '<' {
      if i < 4 {
        assert s[i] == (before + after)[i];
      } else if i < 15 {
        assert s[i] == JavascriptScheme[i - 4];
      } else {
        assert s[i] == (before + after)[i - 11];
      }
    }
    StripTagsWithoutOpen(s);
  }

  /** The scheme has no whitespace at either end, so the trim keeps it. */
  lemma TrimOfScheme()
    ensures Trim(JavascriptScheme) == JavascriptScheme
  {
    TrimFixesTrimmed(JavascriptScheme);
  }

  /** The handler pass leaves the scheme alone: it has no `o`. */
  lemma RemoveHandlersOfScheme()
    ensures RemoveHandlers(JavascriptScheme) == JavascriptScheme
  {
    assert forall i :: 0 <= i < 11 ==> JavascriptScheme[i] != 'o' && JavascriptScheme[i] != 'O';
    RemoveHandlersWithoutO(JavascriptScheme);
  }

  /** The tag pass leaves a string without `<` alone. */
  lemma {:induction false} StripTagsWithoutOpen(s: string)
    requires forall i :: 0 <= i < |s| ==> s[i] != '<'
    ensures StripTags(s) == s
    decreases |s|
  {
    if s != [] {
      assert forall i :: 0 <= i < |s[1..]| ==> s[1..][i] == s[i + 1];
      StripTagsWithoutOpen(s[1..]);
    }
  }

  // ---------------------------------------------------------------------------
  // sanitizeDate

  /** `/^\d{4}-\d{2}-\d{2}$/`: ten characters, dashes at 4 and 7, ASCII digits
      elsewhere. */
  predicate IsDateShape(s: string) {
    && |s| == 10 && s[4] == '-' && s[7] == '-'
    && forall i :: 0 <= i < 10 && i != 4 && i != 7 ==> IsAsciiDigit(s[i])
  }

  /** `sanitizeDate(value)`. */
  function SanitizeDate(value: Option<string>, decode: UriDecoder): (r: string)
    ensures r == [] || IsDateShape(r)
  {
    match value
    case None => []
    case Some(v) =>
      match decode(v)
      case None => []
      case Some(decoded) => if IsDateShape(decoded) then decoded else []
  }

  /** The decoded value is returned exactly when it has the date shape; every other
      outcome, a decoding error included, is the empty string. */
  lemma SanitizeDateKeepsOnlyDates(v: string, decode: UriDecoder)
    ensures decode(v).Some? && IsDateShape(decode(v).value) ==> SanitizeDate(Some(v), decode) == decode(v).value
    ensures decode(v).Some? && !IsDateShape(decode(v).value) ==> SanitizeDate(Some(v), decode) == []
    ensures decode(v).None? ==> SanitizeDate(Some(v), decode) == []
    ensures SanitizeDate(Some(v), decode) != [] ==> decode(v) == Some(SanitizeDate(Some(v), decode))
  {
  }

  /** Only the shape is checked, not the calendar: month 99, day 99 passes. */
  lemma SanitizeDateHasNoCalendarCheck(decode: UriDecoder)
    requires decode("2024-99-99") == Some("2024-99-99")
    ensures SanitizeDate(Some("2024-99-99"), decode) == "2024-99-99"
  {
    var s := "2024-99-99";
    assert s[4] == '-' && s[7] == '-';
    assert forall i :: 0 <= i < 10 && i != 4 && i != 7 ==> IsAsciiDigit(s[i]);
  }
}
