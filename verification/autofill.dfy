/** The widget's field writes: `clearAddressFields`, `fillInAddress` and
    the construction step that compiles the configuration and clears the
    targets. Form fields are a map from element id to the element's value
    and `disabled` flag; a target id with no element is a jQuery no-op. */
module Autofill {
  import opened Wrappers
  import opened Mapping
  import opened Projection

  datatype Field = Field(value: string, disabled: bool)

  /** The page's form fields, by element id. */
  type Sink = map<string, Field>

  /** Some field mapping targets `id`. */
  ghost predicate IsTarget(fields: seq<FieldMapping>, id: string)
  {
    exists i :: 0 <= i < |fields| && fields[i].target == id
  }

  /** Field mapping `i` is the last one targeting its id, so its write is
      the one that stays. */
  ghost predicate IsLastTarget(fields: seq<FieldMapping>, i: int)
  {
    && 0 <= i < |fields|
    && forall j :: i < j < |fields| ==> fields[j].target != fields[i].target
  }

  /** `clearAddressFields`: every target element gets the empty value and
      loses `disabled`; every other element is left alone. */
  function ClearAddressFields(fields: seq<FieldMapping>, sink: Sink): (r: Sink)
    ensures r.Keys == sink.Keys
    ensures forall id :: id in sink && IsTarget(fields, id) ==> r[id] == Field("", false)
    ensures forall id :: id in sink && !IsTarget(fields, id) ==> r[id] == sink[id]
  {
    if |fields| == 0 then sink
    else
      var t := fields[0].target;
      var next := if t in sink then sink[t := Field("", false)] else sink;
      var r := ClearAddressFields(fields[1..], next);
      assert forall id :: IsTarget(fields[1..], id) ==> IsTarget(fields, id) by {
        forall id | IsTarget(fields[1..], id) ensures IsTarget(fields, id) {
          var i :| 0 <= i < |fields[1..]| && fields[1..][i].target == id;
          assert fields[i + 1].target == id;
        }
      }
      assert forall id :: IsTarget(fields, id) && id != t ==> IsTarget(fields[1..], id) by {
        forall id | IsTarget(fields, id) && id != t ensures IsTarget(fields[1..], id) {
          var i :| 0 <= i < |fields| && fields[i].target == id;
          assert i > 0 && fields[1..][i - 1].target == id;
        }
      }
      r
  }

  /** `$elem.val(v)`: sets the value of an existing element and keeps its
      `disabled` flag. */
  function SetValue(sink: Sink, id: string, v: string): Sink
  {
    if id in sink then sink[id := sink[id].(value := v)] else sink
  }

  /** The projection loop of `fillInAddress`: each field in order gets its
      joined value, so when two mappings share a target the later write
      stays. */
  function WriteFields(fields: seq<FieldMapping>, comps: seq<AddressComponent>, lookup: Lookup, sink: Sink): (r: Sink)
    ensures r.Keys == sink.Keys
    ensures forall id :: id in sink ==> r[id].disabled == sink[id].disabled
    ensures forall id :: id in sink && !IsTarget(fields, id) ==> r[id] == sink[id]
    ensures forall i :: IsLastTarget(fields, i) && fields[i].target in sink ==>
              r[fields[i].target].value == FieldValue(fields[i], comps, lookup)
  {
    if |fields| == 0 then sink
    else
      var t := fields[0].target;
      var next := SetValue(sink, t, FieldValue(fields[0], comps, lookup));
      var r := WriteFields(fields[1..], comps, lookup, next);
      assert forall id :: IsTarget(fields[1..], id) ==> IsTarget(fields, id) by {
        forall id | IsTarget(fields[1..], id) ensures IsTarget(fields, id) {
          var i :| 0 <= i < |fields[1..]| && fields[1..][i].target == id;
          assert fields[i + 1].target == id;
        }
      }
      assert forall i :: IsLastTarget(fields, i) && i > 0 ==> IsLastTarget(fields[1..], i - 1) by {
        forall i | IsLastTarget(fields, i) && i > 0 ensures IsLastTarget(fields[1..], i - 1) {
          forall j | i - 1 < j < |fields[1..]| ensures fields[1..][j].target != fields[1..][i - 1].target {
            assert fields[1..][j] == fields[j + 1];
          }
        }
      }
      assert IsLastTarget(fields, 0) ==> !IsTarget(fields[1..], t) by {
        if IsLastTarget(fields, 0) {
          forall i | 0 <= i < |fields[1..]| ensures fields[1..][i].target != t {
            assert fields[1..][i] == fields[i + 1];
          }
        }
      }
      r
  }

  /** How `fillInAddress` ended: `false` was returned before any projection,
      or the fields were filled. */
  datatype FillStatus = NoResult | Filled

  datatype FillResult = FillResult(sink: Sink, status: FillStatus)

  /** The place has an `address_components` list. */
  predicate HasComponents(place: Option<Place>)
  {
    place.Some? && place.value.addressComponents.Some?
  }

  /** `fillInAddress(place)`: clear every target, give up when there is no
      mapping or no component list, otherwise build the lookup table from
      the components and write each field's joined value. */
  function FillInAddress(form: AddressForm, place: Option<Place>, sink: Sink): (r: FillResult)
    ensures r.status == NoResult <==> |form.fields| == 0 || !HasComponents(place)
    ensures r.sink.Keys == sink.Keys
    ensures forall id :: id in sink && !IsTarget(form.fields, id) ==> r.sink[id] == sink[id]
    ensures forall id :: id in sink && IsTarget(form.fields, id) ==> !r.sink[id].disabled
    ensures r.status == NoResult ==>
              forall id :: id in sink && IsTarget(form.fields, id) ==> r.sink[id].value == ""
    ensures r.status == Filled ==>
              var comps := place.value.addressComponents.value;
              forall i :: IsLastTarget(form.fields, i) && form.fields[i].target in sink ==>
                r.sink[form.fields[i].target].value
                == FieldValue(form.fields[i], comps, BuildLookup(comps, form.required))
  {
    var cleared := ClearAddressFields(form.fields, sink);
    if |form.fields| == 0 then FillResult(cleared, NoResult)
    else if !HasComponents(place) then FillResult(cleared, NoResult)
    else
      var comps := place.value.addressComponents.value;
      FillResult(WriteFields(form.fields, comps, BuildLookup(comps, form.required), cleared), Filled)
  }

  /** Every targeted id has a last mapping targeting it. */
  lemma {:induction false} LastTargetExists(fields: seq<FieldMapping>, id: string)
    requires IsTarget(fields, id)
    ensures exists i :: IsLastTarget(fields, i) && fields[i].target == id
    decreases |fields|
  {
    var n := |fields| - 1;
    if fields[n].target == id {
      assert IsLastTarget(fields, n);
    } else {
      var k :| 0 <= k < |fields| && fields[k].target == id;
      assert IsTarget(fields[..n], id) by {
        assert fields[..n][k] == fields[k];
      }
      LastTargetExists(fields[..n], id);
      var i :| IsLastTarget(fields[..n], i) && fields[..n][i].target == id;
      assert fields[i] == fields[..n][i];
      assert IsLastTarget(fields, i);
    }
  }

  /** No stale value survives: the fields after `fillInAddress` depend only
      on the page's non-target elements, never on what the targets held or
      whether they were disabled before. */
  lemma NoStaleValue(form: AddressForm, place: Option<Place>, s1: Sink, s2: Sink)
    requires s1.Keys == s2.Keys
    requires forall id :: id in s1 && !IsTarget(form.fields, id) ==> s1[id] == s2[id]
    ensures FillInAddress(form, place, s1) == FillInAddress(form, place, s2)
  {
    var r1 := FillInAddress(form, place, s1);
    var r2 := FillInAddress(form, place, s2);
    forall id | id in s1 ensures r1.sink[id] == r2.sink[id] {
      if IsTarget(form.fields, id) {
        if r1.status == Filled {
          LastTargetExists(form.fields, id);
        }
      }
    }
    assert r1.sink == r2.sink;
  }

  /** Re-running `fillInAddress` with the same place leaves the fields as
      the first run left them. */
  lemma FillIdempotent(form: AddressForm, place: Option<Place>, sink: Sink)
    ensures var once := FillInAddress(form, place, sink);
            FillInAddress(form, place, once.sink) == once
  {
    var once := FillInAddress(form, place, sink);
    NoStaleValue(form, place, sink, once.sink);
  }

  /** The constructor's part: compile the configuration, then clear the
      targets once. */
  method Initialize(config: seq<RawField>, sink: Sink) returns (form: AddressForm, page: Sink)
    ensures |form.fields| == |config|
    ensures forall i :: 0 <= i < |config| ==> CompiledFrom(form.fields[i], config[i])
    ensures form.required == Flatten(form.fields)
    ensures |form.required| == TotalComponents(config)
    ensures WellFormed(form)
    ensures page.Keys == sink.Keys
    ensures forall i :: 0 <= i < |config| && config[i].target in sink ==> page[config[i].target] == Field("", false)
    ensures forall id :: id in sink && (forall i :: 0 <= i < |config| ==> config[i].target != id) ==> page[id] == sink[id]
  {
    form := Compile(config);
    page := ClearAddressFields(form.fields, sink);
    forall i | 0 <= i < |config| && config[i].target in sink
      ensures page[config[i].target] == Field("", false)
    {
      assert form.fields[i].target == config[i].target;
    }
  }
}
