/** The pure helpers of the PDF generator (src/js/pdf.js): the closed maps from a
    stored choice value to its label key, `canonicalize`, and the derivation of
    the download filename. */
module PdfNames {
  import opened Strings
  import opened FormData

  // ---------------------------------------------------------------------------
  // Choice value -> label key

  /** `getPurposeLabel`: the four purposes of stay map to their label keys; any
      other stored value is passed through unchanged. */
  function PurposeLabelKey(value: string): (key: string)
  {
    if value == "tourism" then "tourism"
    else if value == "business" then "business"
    else if value == "transit" then "transit"
    else if value == "other" then "otherPurpose"
    else value
  }

  /** `getDocTypeLabel`. */
  function DocTypeLabelKey(value: string): (key: string)
  {
    if value == "passport" then "passport"
    else if value == "idCard" then "idCard"
    else if value == "other" then "otherDoc"
    else value
  }

  /** `getSexLabel`. */
  function SexLabelKey(value: string): (key: string)
  {
    if value == "male" then "male"
    else if value == "female" then "female"
    else if value == "other" then "other"
    else value
  }

  /** The purpose map renames only `other`; every other value, known or not, is its
      own label key. */
  lemma PurposeLabelKeyRenamesOnlyOther(value: string)
    ensures PurposeLabelKey(value) == (if value == "other" then "otherPurpose" else value)
    ensures PurposeLabelKey(PurposeLabelKey(value)) == PurposeLabelKey(value)
  {
  }

  /** The document-type map renames only `other`. */
  lemma DocTypeLabelKeyRenamesOnlyOther(value: string)
    ensures DocTypeLabelKey(value) == (if value == "other" then "otherDoc" else value)
    ensures DocTypeLabelKey(DocTypeLabelKey(value)) == DocTypeLabelKey(value)
  {
  }

  /** The sex map is the identity: every key maps to itself. */
  lemma SexLabelKeyIsIdentity(value: string)
    ensures SexLabelKey(value) == value
  {
  }

  // ---------------------------------------------------------------------------
  // canonicalize

  predicate IsAsciiAlnum(c: char) {
    IsAsciiLower(c) || ('A' <= c <= 'Z') || IsAsciiDigit(c)
  }

  /** A character that may appear in a filename part: `[a-z0-9]`. */
  predicate IsCanonChar(c: char) {
    IsAsciiLower(c) || IsAsciiDigit(c)
  }

  /** A possible result of `canonicalize(_, maxLen)`. */
  predicate IsCanonical(s: string, maxLen: nat) {
    |s| <= maxLen && forall i :: 0 <= i < |s| ==> IsCanonChar(s[i])
  }

  /** `.replace(/[^a-z0-9]/gi, '')`: deletes every character outside the
      case-insensitive class `[a-z0-9]`. */
  function KeepAlnum(s: string): (r: string)
    ensures |r| <= |s|
    ensures forall i :: 0 <= i < |r| ==> IsAsciiAlnum(r[i])
  {
    if s == [] then []
    else
      var rest := KeepAlnum(s[1..]);
      if IsAsciiAlnum(s[0]) then [s[0]] + rest else rest
  }

  /** A string made only of ASCII letters and digits is kept whole. */
  lemma {:induction false} KeepAlnumOfAlnum(s: string)
    requires forall i :: 0 <= i < |s| ==> IsAsciiAlnum(s[i])
    ensures KeepAlnum(s) == s
    decreases |s|
  {
    if s != [] {
      KeepAlnumOfAlnum(s[1..]);
    }
  }

  /** A string without a single ASCII letter or digit is deleted whole. */
  lemma {:induction false} KeepAlnumOfNone(s: string)
    requires forall i :: 0 <= i < |s| ==> !IsAsciiAlnum(s[i])
    ensures KeepAlnum(s) == []
    decreases |s|
  {
    if s != [] {
      KeepAlnumOfNone(s[1..]);
    }
  }

  /** The filter only keeps characters of its argument, so an argument without
      upper-case letters leaves only characters of `[a-z0-9]`. */
  lemma {:induction false} KeepAlnumOfLowered(s: string)
    requires forall i :: 0 <= i < |s| ==> !('A' <= s[i] <= 'Z')
    ensures forall i :: 0 <= i < |KeepAlnum(s)| ==> IsCanonChar(KeepAlnum(s)[i])
    decreases |s|
  {
    if s != [] {
      KeepAlnumOfLowered(s[1..]);
    }
  }

  /** The steps of `canonicalize` leave a canonical string as it is. */
  lemma KeepAlnumOfCanonical(str: string, maxLen: nat)
    ensures IsCanonical(str, maxLen) ==> KeepAlnum(Lower(str)) == str
  {
    if IsCanonical(str, maxLen) {
      assert Lower(str) == str;
      KeepAlnumOfAlnum(str);
    }
  }

  /** `canonicalize(str, maxLen)`: empty for an empty argument; otherwise lower-case,
      drop everything outside `[a-z0-9]`, keep the first `maxLen` characters. */
  function Canonicalize(str: string, maxLen: nat := 20): (r: string)
    ensures IsCanonical(r, maxLen)
    ensures IsCanonical(str, maxLen) ==> r == str
  {
    if str == [] then []
    else
      var lowered := Lower(str);
      var kept := KeepAlnum(lowered);
      KeepAlnumOfLowered(lowered);
      KeepAlnumOfCanonical(str, maxLen);
      Take(kept, maxLen)
  }

  /** Canonicalising twice is canonicalising once. */
  lemma CanonicalizeIdempotent(str: string, maxLen: nat)
    ensures Canonicalize(Canonicalize(str, maxLen), maxLen) == Canonicalize(str, maxLen)
  {
  }

  /** A non-empty argument without a single ASCII letter or digit canonicalises to
      the empty string. */
  lemma CanonicalizeNoAlnum(str: string, maxLen: nat)
    requires forall i :: 0 <= i < |str| ==> !IsAsciiAlnum(str[i])
    ensures Canonicalize(str, maxLen) == []
  {
    if str != [] {
      var lowered := Lower(str);
      assert forall i :: 0 <= i < |lowered| ==> !IsAsciiAlnum(lowered[i]);
      KeepAlnumOfNone(lowered);
    }
  }

  /** The filter works character by character. */
  lemma {:induction false} KeepAlnumAppend(x: string, y: string)
    ensures KeepAlnum(x + y) == KeepAlnum(x) + KeepAlnum(y)
    decreases |x|
  {
    if x == [] {
      assert x + y == y;
    } else {
      var head := if IsAsciiAlnum(x[0]) then [x[0]] else [];
      assert KeepAlnum(x + y) == head + KeepAlnum(x[1..] + y) by {
        assert (x + y)[0] == x[0];
        assert (x + y)[1..] == x[1..] + y;
      }
      KeepAlnumAppend(x[1..], y);
    }
  }

  lemma LowerAppend(x: string, y: string)
    ensures Lower(x + y) == Lower(x) + Lower(y)
  {
  }

  /** A character outside `[A-Za-z0-9]`, wherever it stands in a non-empty
      argument, is deleted: the result is that of the argument without it. */
  lemma CanonicalizeDeletesOther(a: string, c: char, b: string, maxLen: nat)
    requires !IsAsciiAlnum(c) && a + b != []
    ensures Canonicalize(a + [c] + b, maxLen) == Canonicalize(a + b, maxLen)
  {
    var la, lb := Lower(a), Lower(b);
    LowerAround(a, c, b);
    KeepAlnumDeletesOther(la, c, lb);
    CanonicalizeOfNonEmpty(a + [c] + b, maxLen);
    CanonicalizeOfNonEmpty(a + b, maxLen);
  }

  lemma LowerAround(a: string, c: char, b: string)
    requires !IsAsciiAlnum(c)
    ensures Lower(a + [c] + b) == Lower(a) + [c] + Lower(b)
    ensures Lower(a + b) == Lower(a) + Lower(b)
  {
    LowerAppend(a + [c], b);
    LowerAppend(a, [c]);
    LowerAppend(a, b);
    assert Lower([c]) == [c];
  }

  lemma KeepAlnumDeletesOther(x: string, c: char, y: string)
    requires !IsAsciiAlnum(c)
    ensures KeepAlnum(x + [c] + y) == KeepAlnum(x + y)
  {
    KeepAlnumAppend(x + [c], y);
    KeepAlnumAppend(x, [c]);
    KeepAlnumAppend(x, y);
    assert KeepAlnum([c]) == [];
  }

  lemma CanonicalizeOfNonEmpty(str: string, maxLen: nat)
    requires str != []
    ensures Canonicalize(str, maxLen) == Take(KeepAlnum(Lower(str)), maxLen)
  {
  }

  /** Accented letters are deleted, not transliterated: `"São"` gives `"so"`. */
  lemma CanonicalizeDropsAccents(a: string, b: string, maxLen: nat)
    requires a + b != []
    ensures Canonicalize(a + "\U{00E3}" + b, maxLen) == Canonicalize(a + b, maxLen)
  {
    assert a + "\U{00E3}" + b == a + ['\U{00E3}'] + b;
    CanonicalizeDeletesOther(a, '\U{00E3}', b, maxLen);
  }

  // ---------------------------------------------------------------------------
  // Filename

  /** `data.checkinDate || <today as YYYY-MM-DD>`; `today` is the caller's clock. */
  function CheckinPart(data: Record, today: string): (part: string)
  {
    if Get(data, "checkinDate") != "" then Get(data, "checkinDate") else today
  }

  /** `canonicalize(data.city || data.accommodationName || 'place')`. */
  function PlacePart(data: Record): (part: string)
  {
    var city, name := Get(data, "city"), Get(data, "accommodationName");
    Canonicalize(if city != "" then city else if name != "" then name else "place")
  }

  /** `canonicalize(`${firstName || ''}${lastName || ''}` || 'guest')`. */
  function NamePart(data: Record): (part: string)
  {
    var full := Get(data, "firstName") + Get(data, "lastName");
    Canonicalize(if full != "" then full else "guest")
  }

  /** The template `${checkinPart}-${placePart}-${namePart}.pdf`. */
  function Filename(checkin: string, place: string, name: string): (f: string)
  {
    checkin + "-" + place + "-" + name + ".pdf"
  }

  /** The download name derived from the record and the caller's date. */
  function DeriveFilename(data: Record, today: string): (name: string)
  {
    Filename(CheckinPart(data, today), PlacePart(data), NamePart(data))
  }

  /** The template starts with the check-in part and ends with `.pdf`. */
  lemma FilenameFrame(checkin: string, place: string, name: string)
    ensures |Filename(checkin, place, name)| == |checkin| + |place| + |name| + 6
    ensures Filename(checkin, place, name)[..|checkin|] == checkin
    ensures Filename(checkin, place, name)[|checkin| + |place| + |name| + 2..] == ".pdf"
  {
    var f := Filename(checkin, place, name);
    assert f == checkin + ("-" + place + "-" + name + ".pdf");
    assert f == (checkin + "-" + place + "-" + name) + ".pdf";
  }

  lemma FilenameOfFallbacks(today: string)
    ensures Filename(today, "place", "guest") == today + "-place-guest.pdf"
  {
  }

  /** Every filename is the check-in part, then two canonical parts of at most 20
      characters from `[a-z0-9]`, separated by dashes and followed by `.pdf`; the
      check-in part is the record's check-in date when there is one, else today. */
  lemma FilenameShape(data: Record, today: string)
    ensures exists place, name ::
      IsCanonical(place, 20) && IsCanonical(name, 20) &&
      DeriveFilename(data, today) == Filename(CheckinPart(data, today), place, name)
    ensures Get(data, "checkinDate") != "" ==>
      DeriveFilename(data, today)[..|Get(data, "checkinDate")|] == Get(data, "checkinDate")
    ensures Get(data, "checkinDate") == "" ==> DeriveFilename(data, today)[..|today|] == today
    ensures DeriveFilename(data, today)[|DeriveFilename(data, today)| - 4..] == ".pdf"
  {
    var checkin, place, name := CheckinPart(data, today), PlacePart(data), NamePart(data);
    assert IsCanonical(place, 20) && IsCanonical(name, 20);
    FilenameFrame(checkin, place, name);
  }

  /** With no check-in date, no place and no name the fallbacks apply:
      `<today>-place-guest.pdf`. */
  lemma FilenameFallbacks(data: Record, today: string)
    requires Get(data, "checkinDate") == "" && Get(data, "city") == ""
    requires Get(data, "accommodationName") == ""
    requires Get(data, "firstName") == "" && Get(data, "lastName") == ""
    ensures DeriveFilename(data, today) == today + "-place-guest.pdf"
  {
    PlaceFallback(data);
    NameFallback(data);
    FilenameOfFallbacks(today);
  }

  lemma PlaceFallback(data: Record)
    requires Get(data, "city") == "" && Get(data, "accommodationName") == ""
    ensures PlacePart(data) == "place"
  {
    assert IsCanonical("place", 20);
  }

  lemma NameFallback(data: Record)
    requires Get(data, "firstName") == "" && Get(data, "lastName") == ""
    ensures NamePart(data) == "guest"
  {
    assert IsCanonical("guest", 20);
  }

  /** The fallback is chosen before canonicalisation: a city made only of symbols
      (or accented letters) hides the accommodation name and leaves the place part
      empty. */
  lemma SymbolCityLeavesPlaceEmpty(data: Record)
    requires Get(data, "city") != ""
    requires forall i :: 0 <= i < |Get(data, "city")| ==> !IsAsciiAlnum(Get(data, "city")[i])
    ensures PlacePart(data) == []
  {
    CanonicalizeNoAlnum(Get(data, "city"), 20);
  }
}
