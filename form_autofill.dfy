/** The country auto-fill of the guest form (src/js/form.js:189-226): choosing a
    country of birth copies it into the nationality, issuing-country and
    country-of-origin fields, and a flag keeps later choices copying until the
    guest changes any other field.

    The copy loop dispatches a `change` event on every field it writes, and that
    event reaches the form-level listener synchronously, which clears the flag in
    the middle of the loop. The functions below describe that behaviour as the
    code has it. */
module FormAutoFill {
  import opened Wrappers

  const CountryOfBirthId := "countryOfBirth"

  /** `autoFillTargets`, in order. */
  const TargetIds: seq<string> := ["nationality", "issuingCountry", "countryOfOrigin"]

  /** A target field: `None` when the page lacks it, otherwise its value. */
  type Target = Option<string>

  /** `targetFields.some(f => f && !f.value)`. */
  predicate AnyEmpty(ts: seq<Target>) {
    exists i :: 0 <= i < |ts| && ts[i] == Some("")
  }

  /** The copy loop over the targets, starting with flag `flag`: the new values and
      the flag when the loop ends. A field is written when it is present and empty
      or the flag is still set; writing it clears the flag. */
  function Fill(ts: seq<Target>, v: string, flag: bool): (r: (seq<Target>, bool))
    ensures |r.0| == |ts|
    decreases |ts|
  {
    if ts == [] then ([], flag)
    else
      var p := Fill(ts[..|ts| - 1], v, flag);
      var t := ts[|ts| - 1];
      if t.Some? && (t.value == "" || p.1) then (p.0 + [Some(v)], false)
      else (p.0 + [t], p.1)
  }

  /** The targets and the flag while the copy loop runs in place: the first `n`
      targets have been processed and the others are untouched. */
  function FillUpTo(ts: seq<Target>, n: nat, v: string, flag: bool): (r: (seq<Target>, bool))
    requires n <= |ts|
    ensures |r.0| == |ts|
  {
    if n == 0 then (ts, flag)
    else
      var p := FillUpTo(ts, n - 1, v, flag);
      var t := p.0[n - 1];
      if t.Some? && (t.value == "" || p.1) then (p.0[n - 1 := Some(v)], false) else p
  }

  /** Writing or passing the first target after the prefix `a`. */
  lemma SplitAt(a: seq<Target>, b: seq<Target>, x: Target)
    requires b != []
    ensures (a + b)[|a|] == b[0]
    ensures (a + b)[|a| := x] == (a + [x]) + b[1..]
    ensures a + b == (a + [b[0]]) + b[1..]
  {
  }

  /** Processing the first `n` targets in place leaves `Fill` of them followed by
      the rest. */
  lemma {:induction false} FillUpToIsFill(ts: seq<Target>, n: nat, v: string, flag: bool)
    requires n <= |ts|
    ensures FillUpTo(ts, n, v, flag) == (Fill(ts[..n], v, flag).0 + ts[n..], Fill(ts[..n], v, flag).1)
  {
    if n == 0 {
      assert ts[..0] == [] && ts[0..] == ts;
      assert Fill(ts[..0], v, flag) == ([], flag);
      assert [] + ts == ts;
    } else {
      var i := n - 1;
      FillUpToIsFill(ts, i, v, flag);
      assert ts[..n][..i] == ts[..i];
      SplitAt(Fill(ts[..i], v, flag).0, ts[i..], Some(v));
      assert ts[i..][1..] == ts[n..];
    }
  }

  /** The `change` listener of the country of birth: targets and flag afterwards. */
  function AfterCountryOfBirth(ts: seq<Target>, flag: bool, v: string): (r: (seq<Target>, bool))
    ensures |r.0| == |ts|
  {
    if v != "" && (AnyEmpty(ts) || flag) then (Fill(ts, v, flag).0, true)
    else (ts, flag)
  }

  /** No target before position `i` is on the page. */
  predicate NonePresentBefore(ts: seq<Target>, i: int)
    requires 0 <= i <= |ts|
  {
    forall j :: 0 <= j < i ==> ts[j].None?
  }

  /** What target `i` holds after the loop, stated without the loop: it becomes
      `v` when it is present and either empty or the first present target while
      the flag is set. */
  predicate FilledAs(ts: seq<Target>, r: seq<Target>, v: string, flag: bool, i: int)
    requires 0 <= i < |ts| && |r| == |ts|
  {
    r[i] == if ts[i].Some? && (ts[i].value == "" || (flag && NonePresentBefore(ts, i))) then Some(v) else ts[i]
  }

  /** The loop writes exactly the empty present targets and, when the flag is set,
      the first present one; the flag survives only when no target is present. */
  lemma {:induction false} FillExactly(ts: seq<Target>, v: string, flag: bool)
    ensures forall i :: 0 <= i < |ts| ==> FilledAs(ts, Fill(ts, v, flag).0, v, flag, i)
    ensures Fill(ts, v, flag).1 == (flag && NonePresentBefore(ts, |ts|))
    decreases |ts|
  {
    if ts != [] {
      var n := |ts| - 1;
      var init := ts[..n];
      FillExactly(init, v, flag);
      var p := Fill(init, v, flag);
      var r := Fill(ts, v, flag);
      assert r.0[..n] == p.0;
      forall i | 0 <= i < |ts|
        ensures FilledAs(ts, r.0, v, flag, i)
      {
        if i < n {
          assert FilledAs(init, p.0, v, flag, i);
          assert NonePresentBefore(init, i) == NonePresentBefore(ts, i);
        } else {
          assert NonePresentBefore(init, n) == NonePresentBefore(ts, n);
        }
      }
      assert NonePresentBefore(ts, |ts|) == (NonePresentBefore(init, n) && ts[n].None?);
    }
  }

  /** The listener as a whole: an empty choice changes nothing; otherwise, when a
      target is empty or the flag is set, the targets are filled as `FilledAs`
      says and the flag ends set; in every other case nothing changes. Absent
      targets stay absent. */
  lemma AfterCountryOfBirthCases(ts: seq<Target>, flag: bool, v: string)
    ensures v == "" ==> AfterCountryOfBirth(ts, flag, v) == (ts, flag)
    ensures v != "" && !AnyEmpty(ts) && !flag ==> AfterCountryOfBirth(ts, flag, v) == (ts, flag)
    ensures v != "" && (AnyEmpty(ts) || flag) ==>
      var r := AfterCountryOfBirth(ts, flag, v);
      && r.1
      && forall i :: 0 <= i < |ts| ==> FilledAs(ts, r.0, v, flag, i)
    ensures forall i :: 0 <= i < |ts| ==> (ts[i].None? <==> AfterCountryOfBirth(ts, flag, v).0[i].None?)
  {
    FillExactly(ts, v, flag);
    var r := AfterCountryOfBirth(ts, flag, v);
    forall i | 0 <= i < |ts|
      ensures ts[i].None? <==> r.0[i].None?
    {
      if v != "" && (AnyEmpty(ts) || flag) {
        assert FilledAs(ts, r.0, v, flag, i);
      }
    }
  }

  /** After a non-empty choice no present target is left empty, so the next choice
      copies only while the flag is still set. */
  lemma NoEmptyTargetAfterChoice(ts: seq<Target>, flag: bool, v: string)
    requires v != ""
    ensures !AnyEmpty(AfterCountryOfBirth(ts, flag, v).0)
  {
    AfterCountryOfBirthCases(ts, flag, v);
    var r := AfterCountryOfBirth(ts, flag, v);
    if AnyEmpty(ts) || flag {
      forall i | 0 <= i < |ts|
        ensures r.0[i] != Some("")
      {
        assert FilledAs(ts, r.0, v, flag, i);
      }
    }
  }

  /** Correction mode reaches only the first target: with all three targets
      present and filled and the flag set, a new choice overwrites the first and
      leaves the others as they were, because writing the first clears the flag. */
  lemma CorrectionReachesFirstTargetOnly(ts: seq<Target>, v: string)
    requires |ts| == |TargetIds| && v != ""
    requires forall i :: 0 <= i < |ts| ==> ts[i].Some? && ts[i].value != ""
    ensures AfterCountryOfBirth(ts, true, v) == ([Some(v)] + ts[1..], true)
  {
    AfterCountryOfBirthCases(ts, true, v);
    var r := AfterCountryOfBirth(ts, true, v);
    assert FilledAs(ts, r.0, v, true, 0);
    forall i | 1 <= i < |ts|
      ensures r.0[i] == ts[i]
    {
      assert FilledAs(ts, r.0, v, true, i);
      assert !NonePresentBefore(ts, i) by {
        assert ts[0].Some?;
      }
    }
    assert r.0 == [Some(v)] + ts[1..];
  }

  /** The module-level `autoCountryActive` flag and the three target fields. */
  class CountryAutoFill {
    var active: bool
    var targets: seq<Target>

    ghost predicate Valid()
      reads this
    {
      |targets| == |TargetIds|
    }

    constructor (targets: seq<Target>)
      requires |targets| == |TargetIds|
      ensures Valid() && this.targets == targets && !active
    {
      this.targets := targets;
      active := false;
    }

    /** The form-level `change` listener: a change of any field but the country of
        birth clears the flag. */
    method OnFormChange(id: string)
      modifies this
      ensures targets == old(targets)
      ensures active == (old(active) && id == CountryOfBirthId)
    {
      if id != CountryOfBirthId {
        active := false;
      }
    }

    /** The `change` listener of the country of birth, with `v` its new value. */
    method OnCountryOfBirthChange(v: string)
      requires Valid()
      modifies this
      ensures Valid()
      ensures (targets, active) == AfterCountryOfBirth(old(targets), old(active), v)
    {
      if v == "" {
        return;
      }
      var anyEmpty := AnyEmpty(targets);
      if anyEmpty || active {
        ghost var ts := targets;
        ghost var flag := active;
        var i := 0;
        while i < |targets|
          invariant |targets| == |ts| && 0 <= i <= |ts|
          invariant (targets, active) == FillUpTo(ts, i, v, flag)
        {
          var field := targets[i];
          if field.Some? && (field.value == "" || active) {
            targets := targets[i := Some(v)];
            OnFormChange(TargetIds[i]);
          }
          i := i + 1;
        }
        FillUpToIsFill(ts, |ts|, v, flag);
        assert ts[..|ts|] == ts && ts[|ts|..] == [];
        assert targets == Fill(ts, v, flag).0;
        assert AfterCountryOfBirth(ts, flag, v) == (Fill(ts, v, flag).0, true);
        assert ts == old(targets) && flag == old(active);
        active := true;
      }
    }
  }
}
