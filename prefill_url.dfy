/** The host's prefill link (src/js/prefill.js:8-31): the accommodation details
    a host types are turned into query parameters that the guest form reads back
    when it opens. */
module PrefillUrl {
  import opened Strings
  import FormPrefill

  /** `HOST_FIELDS` in order: element identifier, query parameter. */
  const HostFields: seq<(string, string)> := [
    ("host-accName", "acc_name"),
    ("host-address", "acc_address"),
    ("host-postalCode", "acc_postal"),
    ("host-city", "acc_city"),
    ("host-checkin", "checkin"),
    ("host-checkout", "checkout")
  ]

  /** Percent-encoding of one name or value, as `URLSearchParams` does it. */
  type Encoder = string -> string

  /** `name=value`, both encoded. */
  function EncodePair(p: (string, string), encode: Encoder): (r: string)
    ensures r != ""
  {
    encode(p.0) + "=" + encode(p.1)
  }

  /** `URLSearchParams.toString()`: the encoded pairs joined by `&`. */
  function Serialize(pairs: seq<(string, string)>, encode: Encoder): string
    decreases |pairs|
  {
    if pairs == [] then ""
    else if |pairs| == 1 then EncodePair(pairs[0], encode)
    else Serialize(pairs[..|pairs| - 1], encode) + "&" + EncodePair(pairs[|pairs| - 1], encode)
  }

  /** The query string is empty exactly when there are no parameters. */
  lemma SerializeEmptyIff(pairs: seq<(string, string)>, encode: Encoder)
    ensures Serialize(pairs, encode) == "" <==> pairs == []
  {
    if |pairs| == 1 {
      assert EncodePair(pairs[0], encode) != "";
    }
  }

  /** The value a field contributes, `field.value.trim()`. */
  predicate Contributes(field: (string, string), page: map<string, string>) {
    field.0 in page && Trim(page[field.0]) != ""
  }

  /** The parameters appended by the loop over `fields`, given the host fields on
      the page (element identifier to value; an identifier absent from the map has
      no element). */
  function Params(fields: seq<(string, string)>, page: map<string, string>): seq<(string, string)>
    decreases |fields|
  {
    if fields == [] then []
    else
      var init := Params(fields[..|fields| - 1], page);
      var f := fields[|fields| - 1];
      if Contributes(f, page) then init + [(f.1, Trim(page[f.0]))] else init
  }

  /** The parameter names of a list of pairs, in order. */
  function Names(pairs: seq<(string, string)>): (r: seq<string>)
    ensures |r| == |pairs|
    ensures forall i :: 0 <= i < |pairs| ==> r[i] == pairs[i].0
  {
    seq(|pairs|, i requires 0 <= i < |pairs| => pairs[i].0)
  }

  /** The parameter names declared by a field table, in order. */
  function DeclaredNames(fields: seq<(string, string)>): (r: seq<string>)
    ensures |r| == |fields|
    ensures forall i :: 0 <= i < |fields| ==> r[i] == fields[i].1
  {
    seq(|fields|, i requires 0 <= i < |fields| => fields[i].1)
  }

  /** Every contributing field has its pair among the parameters, with the
      trimmed value. */
  lemma {:induction false} ParamsComplete(fields: seq<(string, string)>, page: map<string, string>)
    ensures forall i :: 0 <= i < |fields| && Contributes(fields[i], page) ==>
      (fields[i].1, Trim(page[fields[i].0])) in Params(fields, page)
    decreases |fields|
  {
    if fields != [] {
      var n := |fields| - 1;
      var init, f := fields[..n], fields[n];
      ParamsComplete(init, page);
      var ps, all := Params(init, page), Params(fields, page);
      assert all == if Contributes(f, page) then ps + [(f.1, Trim(page[f.0]))] else ps;
      assert forall p :: p in ps ==> p in all;
      forall i | 0 <= i < |fields| && Contributes(fields[i], page)
        ensures (fields[i].1, Trim(page[fields[i].0])) in all
      {
        if i < n {
          assert fields[i] == init[i];
        } else {
          assert all[|all| - 1] == (f.1, Trim(page[f.0]));
        }
      }
    }
  }

  /** Nothing but the pairs of contributing fields is appended. */
  lemma {:induction false} ParamsSound(fields: seq<(string, string)>, page: map<string, string>)
    ensures forall p :: p in Params(fields, page) ==>
      exists i :: 0 <= i < |fields| && Contributes(fields[i], page) && p == (fields[i].1, Trim(page[fields[i].0]))
    decreases |fields|
  {
    if fields != [] {
      var n := |fields| - 1;
      var init, f := fields[..n], fields[n];
      ParamsSound(init, page);
      var ps := Params(init, page);
      var all := Params(fields, page);
      assert all == if Contributes(f, page) then ps + [(f.1, Trim(page[f.0]))] else ps;
      forall p | p in all
        ensures exists i :: 0 <= i < |fields| && Contributes(fields[i], page) && p == (fields[i].1, Trim(page[fields[i].0]))
      {
        if p in ps {
          var i :| 0 <= i < |init| && Contributes(init[i], page) && p == (init[i].1, Trim(page[init[i].0]));
          assert fields[i] == init[i];
        } else {
          assert p == (f.1, Trim(page[f.0]));
        }
      }
    }
  }

  /** The names come in the order of the table. */
  lemma {:induction false} ParamsInOrder(fields: seq<(string, string)>, page: map<string, string>)
    ensures Subseq(Names(Params(fields, page)), DeclaredNames(fields))
    decreases |fields|
  {
    if fields != [] {
      var n := |fields| - 1;
      var init, f := fields[..n], fields[n];
      ParamsInOrder(init, page);
      var ps := Params(init, page);
      var all := Params(fields, page);
      assert all == if Contributes(f, page) then ps + [(f.1, Trim(page[f.0]))] else ps;
      assert DeclaredNames(fields) == DeclaredNames(init) + [f.1];
      SubseqAppend(Names(ps), DeclaredNames(init), f.1, Contributes(f, page));
      if Contributes(f, page) {
        assert Names(all) == Names(ps) + [f.1];
      } else {
        assert Names(all) == Names(ps);
      }
    }
  }

  /** Every value sent is non-empty and has no whitespace at either end. */
  lemma {:induction false} ParamsAreTrimmed(fields: seq<(string, string)>, page: map<string, string>)
    ensures forall p :: p in Params(fields, page) ==>
      p.1 != "" && !IsWhitespace(p.1[0]) && !IsWhitespace(p.1[|p.1| - 1])
  {
    ParamsSound(fields, page);
  }

  /** The host's parameter names are the guest form's `PREFILL_MAP` keys, in the
      same order. */
  lemma HostNamesArePrefillKeys()
    ensures DeclaredNames(HostFields) == Names(FormPrefill.PrefillMap)
  {
  }

  /** Every parameter of a generated link is one the guest form reads. */
  lemma GeneratedParamsAreRead(page: map<string, string>)
    ensures forall p :: p in Params(HostFields, page) ==>
      exists k :: 0 <= k < |FormPrefill.PrefillMap| && FormPrefill.PrefillMap[k].0 == p.0
  {
    ParamsSound(HostFields, page);
    HostNamesArePrefillKeys();
    forall p | p in Params(HostFields, page)
      ensures exists k :: 0 <= k < |FormPrefill.PrefillMap| && FormPrefill.PrefillMap[k].0 == p.0
    {
      var i :| 0 <= i < |HostFields| && Contributes(HostFields[i], page) && p == (HostFields[i].1, Trim(page[HostFields[i].0]));
      assert DeclaredNames(HostFields)[i] == Names(FormPrefill.PrefillMap)[i];
    }
  }

  /** One more field of the table appends its pair when it contributes. */
  lemma ParamsStep(fields: seq<(string, string)>, i: nat, page: map<string, string>)
    requires i < |fields|
    ensures Params(fields[..i + 1], page) ==
      if Contributes(fields[i], page) then Params(fields[..i], page) + [(fields[i].1, Trim(page[fields[i].0]))]
      else Params(fields[..i], page)
  {
    assert fields[..i + 1][..i] == fields[..i];
  }

  /** `generatePrefillUrl()`, with `baseUrl` the page's origin and path. */
  method GeneratePrefillUrl(baseUrl: string, page: map<string, string>, encode: Encoder) returns (url: string)
    ensures Params(HostFields, page) == [] ==> url == baseUrl
    ensures Params(HostFields, page) != [] ==> url == baseUrl + "?" + Serialize(Params(HostFields, page), encode)
  {
    var params: seq<(string, string)> := [];
    for i := 0 to |HostFields|
      invariant params == Params(HostFields[..i], page)
    {
      var (id, param) := HostFields[i];
      ParamsStep(HostFields, i, page);
      if id in page && Trim(page[id]) != "" {
        params := params + [(param, Trim(page[id]))];
      }
    }
    assert HostFields[..|HostFields|] == HostFields;
    var queryString := Serialize(params, encode);
    SerializeEmptyIff(params, encode);
    url := if queryString != "" then baseUrl + "?" + queryString else baseUrl;
  }
}
