/** Prefilling the guest form from a host's link (src/js/form.js:4-15, 63-104,
    169-171): the query parameters named in `PREFILL_MAP` are sanitised and
    written into their fields, and the set `prefilledFields` remembers which
    fields hold a value the guest has not edited yet. */
module FormPrefill {
  import opened Wrappers
  import opened FormSanitize

  /** The `type` of an input control: date inputs use `sanitizeDate`. */
  datatype InputKind = DateInput | TextInput

  /** `PREFILL_MAP` in its declaration order: query parameter, field identifier. */
  const PrefillMap: seq<(string, string)> := [
    ("acc_name", "accommodationName"),
    ("acc_address", "address"),
    ("acc_postal", "postalCode"),
    ("acc_city", "city"),
    ("checkin", "checkinDate"),
    ("checkout", "checkoutDate")
  ]

  /** No field identifier appears twice. */
  ghost predicate DistinctFields(entries: seq<(string, string)>) {
    forall i, j :: 0 <= i < j < |entries| ==> entries[i].1 != entries[j].1
  }

  lemma PrefillMapDistinct()
    ensures DistinctFields(PrefillMap)
  {
  }

  /** What one entry of the loop writes into its field, or `""` when it writes
      nothing: the parameter must be present and non-empty
      (`URLSearchParams.get`), the field must exist, and the sanitised value must
      be non-empty. */
  function SanitizedFor(query: map<string, string>, controls: map<string, InputKind>,
                        decode: UriDecoder, param: string, fieldId: string): (v: string)
    ensures v != "" ==> param in query && query[param] != "" && fieldId in controls
    ensures v != "" && controls[fieldId] == DateInput ==> IsDateShape(v)
    ensures v != "" && controls[fieldId] == TextInput ==> |v| <= 200 && NoTag(v)
  {
    if param in query && query[param] != "" && fieldId in controls then
      if controls[fieldId] == DateInput then SanitizeDate(Some(query[param]), decode)
      else SanitizeInputNoTag(Some(query[param]), decode, 200); SanitizeInput(Some(query[param]), decode)
    else ""
  }

  /** What the loop writes for the first `n` entries, as field identifier to
      value, for a given value per entry (`""`: nothing written). */
  function Writes(entries: seq<(string, string)>, n: nat, value: (string, string) -> string): map<string, string>
    requires n <= |entries|
  {
    if n == 0 then map[]
    else
      var m := Writes(entries, n - 1, value);
      var v := value(entries[n - 1].0, entries[n - 1].1);
      if v != "" then m[entries[n - 1].1 := v] else m
  }

  /** The value the loop computes for an entry on this page. */
  function EntryValue(query: map<string, string>, controls: map<string, InputKind>,
                      decode: UriDecoder): (string, string) -> string
  {
    (param, fieldId) => SanitizedFor(query, controls, decode, param, fieldId)
  }

  /** `value` gives every entry the value the loop computes for it on this page.
      The equation is only used where `SanitizedFor` itself is mentioned, so a
      proof about `value` alone does not unfold the sanitisers. */
  ghost predicate SanitizesAs(value: (string, string) -> string, query: map<string, string>,
                              controls: map<string, InputKind>, decode: UriDecoder)
  {
    forall param, fieldId {:trigger SanitizedFor(query, controls, decode, param, fieldId)} ::
      value(param, fieldId) == SanitizedFor(query, controls, decode, param, fieldId)
  }

  lemma EntryValueSanitizes(query: map<string, string>, controls: map<string, InputKind>, decode: UriDecoder)
    ensures SanitizesAs(EntryValue(query, controls, decode), query, controls, decode)
  {
  }

  /** An entry whose parameter is missing or empty or whose field does not exist
      writes nothing. */
  lemma NoValueWithoutField(value: (string, string) -> string, query: map<string, string>,
                            controls: map<string, InputKind>, decode: UriDecoder, param: string, fieldId: string)
    requires SanitizesAs(value, query, controls, decode)
    requires !(param in query && query[param] != "" && fieldId in controls)
    ensures value(param, fieldId) == ""
  {
    assert SanitizedFor(query, controls, decode, param, fieldId) == "";
  }

  /** The values the loop writes on this page. */
  function Fills(entries: seq<(string, string)>, query: map<string, string>,
                 controls: map<string, InputKind>, decode: UriDecoder): map<string, string>
  {
    Writes(entries, |entries|, EntryValue(query, controls, decode))
  }

  /** `m` holds `v` for the entry's field, and nothing there when `v` is empty. */
  predicate HoldsOwnEntry(m: map<string, string>, entry: (string, string), v: string) {
    && (entry.1 in m <==> v != "")
    && (v != "" ==> m[entry.1] == v)
  }

  /** Writing another field keeps what an entry holds. */
  lemma HoldsOtherEntry(m: map<string, string>, e: (string, string), ve: string, k: string, v: string)
    requires e.1 != k && HoldsOwnEntry(m, e, ve)
    ensures HoldsOwnEntry(if v != "" then m[k := v] else m, e, ve)
  {
  }

  /** Only fields named by one of the first `n` entries are ever written. */
  lemma {:induction false} WritesOnlyNamedFields(entries: seq<(string, string)>, n: nat, value: (string, string) -> string)
    requires n <= |entries|
    ensures forall id :: id in Writes(entries, n, value) ==>
      exists k :: 0 <= k < n && entries[k].1 == id
  {
    if n != 0 {
      WritesOnlyNamedFields(entries, n - 1, value);
      forall id | id in Writes(entries, n, value)
        ensures exists k :: 0 <= k < n && entries[k].1 == id
      {
        if id == entries[n - 1].1 {
          assert entries[n - 1].1 == id;
        } else {
          assert id in Writes(entries, n - 1, value);
        }
      }
    }
  }

  /** With distinct field identifiers, a field is written exactly when its own
      entry's value is non-empty, and it holds that value. */
  lemma {:induction false} WritesExactly(entries: seq<(string, string)>, n: nat, value: (string, string) -> string)
    requires n <= |entries| && DistinctFields(entries)
    ensures forall k :: 0 <= k < n ==>
      HoldsOwnEntry(Writes(entries, n, value), entries[k], value(entries[k].0, entries[k].1))
  {
    if n != 0 {
      var last := entries[n - 1];
      WritesExactly(entries, n - 1, value);
      WritesOnlyNamedFields(entries, n - 1, value);
      var m := Writes(entries, n - 1, value);
      assert last.1 !in m;
      forall k | 0 <= k < n - 1
        ensures HoldsOwnEntry(Writes(entries, n, value), entries[k], value(entries[k].0, entries[k].1))
      {
        HoldsOtherEntry(m, entries[k], value(entries[k].0, entries[k].1), last.1, value(last.0, last.1));
      }
    }
  }

  /** With distinct field identifiers, a field is filled exactly when its own entry
      yields a non-empty sanitised value, and it holds that value; no other field is
      touched. */
  lemma FillsExactly(entries: seq<(string, string)>, query: map<string, string>,
                     controls: map<string, InputKind>, decode: UriDecoder)
    requires DistinctFields(entries)
    ensures forall k :: 0 <= k < |entries| ==>
      HoldsOwnEntry(Fills(entries, query, controls, decode), entries[k],
                    SanitizedFor(query, controls, decode, entries[k].0, entries[k].1))
    ensures forall id :: id in Fills(entries, query, controls, decode) ==>
      exists k :: 0 <= k < |entries| && entries[k].1 == id
  {
    var value := EntryValue(query, controls, decode);
    WritesExactly(entries, |entries|, value);
    WritesOnlyNamedFields(entries, |entries|, value);
    forall k | 0 <= k < |entries|
      ensures value(entries[k].0, entries[k].1) == SanitizedFor(query, controls, decode, entries[k].0, entries[k].1)
    {
    }
  }

  /** The values of the page after the loop's first `n` entries, starting from `base`. */
  function Overlay(base: map<string, string>, entries: seq<(string, string)>, n: nat,
                   value: (string, string) -> string): map<string, string>
    requires n <= |entries|
  {
    if n == 0 then base
    else
      var m := Overlay(base, entries, n - 1, value);
      var v := value(entries[n - 1].0, entries[n - 1].1);
      if v != "" then m[entries[n - 1].1 := v] else m
  }

  /** The marked fields after the loop's first `n` entries, starting from `marks`. */
  function Marked(marks: set<string>, entries: seq<(string, string)>, n: nat,
                  value: (string, string) -> string): set<string>
    requires n <= |entries|
  {
    if n == 0 then marks
    else
      var s := Marked(marks, entries, n - 1, value);
      if value(entries[n - 1].0, entries[n - 1].1) != "" then s + {entries[n - 1].1} else s
  }

  /** `hasPrefill` after the loop's first `n` entries. */
  predicate AnyWritten(entries: seq<(string, string)>, n: nat, value: (string, string) -> string)
    requires n <= |entries|
  {
    n != 0 && (AnyWritten(entries, n - 1, value) || value(entries[n - 1].0, entries[n - 1].1) != "")
  }

  /** The state the loop keeps is the initial values and marks overlaid with what
      the entries so far wrote, and `hasPrefill` says whether they wrote anything. */
  lemma {:induction false} OverlayWrites(base: map<string, string>, marks: set<string>,
                                         entries: seq<(string, string)>, n: nat, value: (string, string) -> string)
    requires n <= |entries|
    ensures Overlay(base, entries, n, value) == base + Writes(entries, n, value)
    ensures Marked(marks, entries, n, value) == marks + Writes(entries, n, value).Keys
    ensures AnyWritten(entries, n, value) == AnyFilled(Writes(entries, n, value))
  {
    if n != 0 {
      OverlayWrites(base, marks, entries, n - 1, value);
      OverlayStep(base, marks, Writes(entries, n - 1, value), Writes(entries, n, value),
                  entries[n - 1].1, value(entries[n - 1].0, entries[n - 1].1));
    }
  }

  /** Overlaying a map that grew by at most one written key. */
  lemma OverlayStep(values: map<string, string>, marks: set<string>,
                    before: map<string, string>, after: map<string, string>, k: string, v: string)
    requires after == if v != "" then before[k := v] else before
    ensures values + after == (if v != "" then (values + before)[k := v] else values + before)
    ensures marks + after.Keys == (if v != "" then marks + before.Keys + {k} else marks + before.Keys)
    ensures AnyFilled(after) == (AnyFilled(before) || v != "")
  {
    if v != "" {
      assert k in after;
    }
  }

  /** Whether a field was set: the prefill notice is shown exactly then. */
  predicate AnyFilled(m: map<string, string>) {
    m != map[]
  }

  /** The sanitising step of the loop for a present parameter and an existing
      field: `sanitizeDate` for a date input, `sanitizeInput` otherwise. */
  method SanitizeEntry(query: map<string, string>, controls: map<string, InputKind>,
                       decode: UriDecoder, param: string, fieldId: string,
                       ghost value: (string, string) -> string) returns (sanitized: string)
    requires SanitizesAs(value, query, controls, decode)
    requires param in query && query[param] != "" && fieldId in controls
    ensures sanitized == value(param, fieldId)
  {
    if controls[fieldId] == DateInput {
      sanitized := SanitizeDate(Some(query[param]), decode);
    } else {
      sanitized := SanitizeInput(Some(query[param]), decode);
    }
    assert sanitized == SanitizedFor(query, controls, decode, param, fieldId);
  }

  class PrefillForm {
    /** The controls of the page by identifier, with their input kind. */
    const controls: map<string, InputKind>
    /** Whether the page has the `prefill-notice` element. */
    const hasNotice: bool
    /** The current values of the controls. */
    var values: map<string, string>
    /** `prefilledFields`. */
    var prefilled: set<string>
    /** `!notice.hidden`. */
    var noticeShown: bool

    constructor (controls: map<string, InputKind>, hasNotice: bool, values: map<string, string>)
      ensures this.controls == controls && this.hasNotice == hasNotice && this.values == values
      ensures prefilled == {} && !noticeShown
    {
      this.controls := controls;
      this.hasNotice := hasNotice;
      this.values := values;
      prefilled := {};
      noticeShown := false;
    }

    /** `parsePrefillParams()` over the parsed query of the page's URL. */
    method ParsePrefillParams(query: map<string, string>, decode: UriDecoder)
      modifies this
      ensures values == old(values) + Fills(PrefillMap, query, controls, decode)
      ensures prefilled == old(prefilled) + Fills(PrefillMap, query, controls, decode).Keys
      ensures noticeShown == (old(noticeShown) || (hasNotice && AnyFilled(Fills(PrefillMap, query, controls, decode))))
    {
      EntryValueSanitizes(query, controls, decode);
      var hasPrefill := PrefillEntries(PrefillMap, query, decode, EntryValue(query, controls, decode));
      if hasPrefill && hasNotice {
        noticeShown := true;
      }
    }

    /** The loop of `parsePrefillParams()` over the entries of `PREFILL_MAP`: writes
        each sanitised value into its field and marks the field; the result is
        `hasPrefill`. */
    method PrefillEntries(entries: seq<(string, string)>, query: map<string, string>, decode: UriDecoder,
                          ghost value: (string, string) -> string)
      returns (hasPrefill: bool)
      requires SanitizesAs(value, query, controls, decode)
      modifies this
      ensures values == old(values) + Writes(entries, |entries|, value)
      ensures prefilled == old(prefilled) + Writes(entries, |entries|, value).Keys
      ensures hasPrefill == AnyFilled(Writes(entries, |entries|, value))
      ensures noticeShown == old(noticeShown)
    {
      hasPrefill := false;
      var i := 0;
      while i < |entries|
        invariant 0 <= i <= |entries|
        invariant values == Overlay(old(values), entries, i, value)
        invariant prefilled == Marked(old(prefilled), entries, i, value)
        invariant hasPrefill == AnyWritten(entries, i, value)
        invariant noticeShown == old(noticeShown)
      {
        var param, fieldId := entries[i].0, entries[i].1;
        if param in query && query[param] != "" && fieldId in controls {
          var sanitized := SanitizeEntry(query, controls, decode, param, fieldId, value);
          if sanitized != "" {
            values := values[fieldId := sanitized];
            prefilled := prefilled + {fieldId};
            hasPrefill := true;
          }
        } else {
          NoValueWithoutField(value, query, controls, decode, param, fieldId);
        }
        i := i + 1;
      }
      OverlayWrites(old(values), old(prefilled), entries, |entries|, value);
    }

    /** The once-only `input` listener of a prefilled field: the guest's first edit
        takes the field out of `prefilledFields`. */
    method OnUserInput(fieldId: string, newValue: string)
      modifies this
      ensures values == old(values)[fieldId := newValue]
      ensures prefilled == old(prefilled) - {fieldId}
      ensures noticeShown == old(noticeShown)
    {
      values := values[fieldId := newValue];
      prefilled := prefilled - {fieldId};
    }

    /** `isPrefilled(fieldId)`: whether the field still holds a prefilled value. */
    predicate IsPrefilled(fieldId: string): (r: bool)
      reads this
      ensures r <==> fieldId in prefilled
    {
      fieldId in prefilled
    }
  }

  /** On a fresh page, prefilling marks exactly the fields it wrote: one of the six
      fields is marked iff its parameter yields a non-empty sanitised value, and
      the guest's edit of that field clears the mark again. */
  method PrefillThenEdit(controls: map<string, InputKind>, initial: map<string, string>,
                         query: map<string, string>, decode: UriDecoder, k: nat, edit: string)
    returns (markedBefore: bool, markedAfter: bool)
    requires k < |PrefillMap|
    ensures markedBefore <==> SanitizedFor(query, controls, decode, PrefillMap[k].0, PrefillMap[k].1) != ""
    ensures !markedAfter
  {
    var form := new PrefillForm(controls, true, initial);
    form.ParsePrefillParams(query, decode);
    PrefillMapDistinct();
    FillsExactly(PrefillMap, query, controls, decode);
    markedBefore := form.IsPrefilled(PrefillMap[k].1);
    form.OnUserInput(PrefillMap[k].1, edit);
    markedAfter := form.IsPrefilled(PrefillMap[k].1);
  }
}
