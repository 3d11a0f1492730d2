/** The component projector of `fillInAddress`: the per-call lookup table
    keyed by `"type:style"` and the ordered collection of each field's
    values. */
module Projection {
  import opened Wrappers
  import opened Text
  import opened Mapping

  /** One entry of a place's `address_components`. */
  datatype AddressComponent = AddressComponent(types: seq<string>, longName: string, shortName: string) {

    /** `types[0]`, the only category matching looks at; absent when the
        list is empty. */
    function Primary(): Option<string>
    {
      if |types| == 0 then None else Some(types[0])
    }

    /** `component[style]`. */
    function Value(st: Style): string
    {
      match st
      case LongName => longName
      case ShortName => shortName
    }
  }

  /** A place result; `address_components` may be missing. */
  datatype Place = Place(addressComponents: Option<seq<AddressComponent>>)

  /** The lookup table `address_components_dict`. */
  type Lookup = map<string, string>

  /** Keys built from colon-free types are distinct for distinct
      `(type, style)` pairs, so the string-keyed table behaves as a table
      keyed by pairs. */
  lemma KeyInjective(t1: string, s1: Style, t2: string, s2: Style)
    requires ':' !in t1 && ':' !in t2
    ensures Key(t1, s1) == Key(t2, s2) <==> t1 == t2 && s1 == s2
  {
    if Key(t1, s1) == Key(t2, s2) {
      StyleNameNoColon(s1);
      StyleNameNoColon(s2);
      assert Join([t1, StyleName(s1)], ":") == Key(t1, s1);
      assert Join([t2, StyleName(s2)], ":") == Key(t2, s2);
      SplitJoin([t1, StyleName(s1)], ':');
      SplitJoin([t2, StyleName(s2)], ':');
      assert StyleName(s1) == StyleName(s2);
    }
  }

  /** The table after one component is recorded: for every required spec
      whose type is the component's primary type and whose style is known,
      the key gets the component's value in that style. A spec with an
      unknown style writes JavaScript `undefined`, which the projector
      treats as a miss, so it records nothing here. */
  function RecordComponent(dict: Lookup, c: AddressComponent, required: seq<ComponentSpec>): Lookup
    decreases |required|
  {
    if |required| == 0 then dict
    else
      var spec := required[0];
      var next :=
        if c.Primary() == Some(spec.addressType) && spec.style.Some?
        then dict[Key(spec.addressType, spec.style.value) := c.Value(spec.style.value)]
        else dict;
      RecordComponent(next, c, required[1..])
  }

  /** The table built from all components in list order. */
  function BuildLookup(comps: seq<AddressComponent>, required: seq<ComponentSpec>): Lookup
  {
    if |comps| == 0 then map[]
    else RecordComponent(BuildLookup(comps[..|comps| - 1], required), comps[|comps| - 1], required)
  }

  /** Some component has primary type `t`. */
  ghost predicate HasPrimary(comps: seq<AddressComponent>, t: string)
  {
    exists i :: 0 <= i < |comps| && comps[i].Primary() == Some(t)
  }

  /** Component `i` is the last one whose primary type is `t`. */
  ghost predicate IsLastWithPrimary(comps: seq<AddressComponent>, t: string, i: int)
  {
    && 0 <= i < |comps|
    && comps[i].Primary() == Some(t)
    && forall j :: i < j < |comps| ==> comps[j].Primary() != Some(t)
  }

  /** Recording one component touches exactly the keys of the required
      specs matching its primary type. */
  lemma {:induction false} RecordComponentSpec(dict: Lookup, c: AddressComponent, required: seq<ComponentSpec>,
                                               t: string, st: Style)
    requires ParsedSpecs(required)
    requires ':' !in t
    ensures var hit := c.Primary() == Some(t) && ComponentSpec(t, Some(st)) in required;
            var r := RecordComponent(dict, c, required);
            && (Key(t, st) in r <==> Key(t, st) in dict || hit)
            && (hit ==> r[Key(t, st)] == c.Value(st))
            && (!hit && Key(t, st) in dict ==> r[Key(t, st)] == dict[Key(t, st)])
    decreases |required|
  {
    if |required| > 0 {
      var spec := required[0];
      var next :=
        if c.Primary() == Some(spec.addressType) && spec.style.Some?
        then dict[Key(spec.addressType, spec.style.value) := c.Value(spec.style.value)]
        else dict;
      if spec.style.Some? {
        KeyInjective(spec.addressType, spec.style.value, t, st);
      }
      assert ParsedSpecs(required[1..]) by {
        forall k | 0 <= k < |required[1..]| ensures ':' !in required[1..][k].addressType {
          assert required[1..][k] == required[k + 1];
        }
      }
      RecordComponentSpec(next, c, required[1..], t, st);
      assert required == [spec] + required[1..];
    }
  }

  /** How `HasPrimary` and `IsLastWithPrimary` change when a component is
      appended. */
  lemma PrimarySnoc(comps: seq<AddressComponent>, t: string)
    requires |comps| > 0
    ensures var n := |comps| - 1;
            HasPrimary(comps, t) <==> HasPrimary(comps[..n], t) || comps[n].Primary() == Some(t)
    ensures var n := |comps| - 1;
            forall i :: IsLastWithPrimary(comps, t, i) ==>
              if comps[n].Primary() == Some(t) then i == n else IsLastWithPrimary(comps[..n], t, i)
  {
  }

  /** The lookup table holds a `(t, style)` entry exactly when that spec is
      required and some component has primary type `t`; its value is the
      value of the LAST such component, so a later component wins. */
  lemma {:induction false} BuildLookupSpec(comps: seq<AddressComponent>, required: seq<ComponentSpec>,
                                           t: string, st: Style)
    requires ParsedSpecs(required)
    requires ':' !in t
    ensures Key(t, st) in BuildLookup(comps, required) <==>
            ComponentSpec(t, Some(st)) in required && HasPrimary(comps, t)
    ensures forall i :: IsLastWithPrimary(comps, t, i) && ComponentSpec(t, Some(st)) in required ==>
            BuildLookup(comps, required)[Key(t, st)] == comps[i].Value(st)
    decreases |comps|
  {
    if |comps| > 0 {
      var n := |comps| - 1;
      BuildLookupSpec(comps[..n], required, t, st);
      RecordComponentSpec(BuildLookup(comps[..n], required), comps[n], required, t, st);
      PrimarySnoc(comps, t);
    }
  }

  /** Every value in the table is some component's value in some style. */
  ghost predicate IsComponentValue(comps: seq<AddressComponent>, v: string)
  {
    exists i, st :: 0 <= i < |comps| && v == comps[i].Value(st)
  }

  lemma {:induction false} RecordComponentValues(dict: Lookup, c: AddressComponent, required: seq<ComponentSpec>,
                                                 comps: seq<AddressComponent>)
    requires c in comps
    requires forall k :: k in dict ==> IsComponentValue(comps, dict[k])
    ensures forall k :: k in RecordComponent(dict, c, required) ==>
              IsComponentValue(comps, RecordComponent(dict, c, required)[k])
    decreases |required|
  {
    if |required| > 0 {
      var spec := required[0];
      var next :=
        if c.Primary() == Some(spec.addressType) && spec.style.Some?
        then dict[Key(spec.addressType, spec.style.value) := c.Value(spec.style.value)]
        else dict;
      var i :| 0 <= i < |comps| && comps[i] == c;
      forall k | k in next ensures IsComponentValue(comps, next[k]) {
        if spec.style.Some? && k == Key(spec.addressType, spec.style.value) && c.Primary() == Some(spec.addressType) {
          assert next[k] == comps[i].Value(spec.style.value);
        } else {
          assert next[k] == dict[k];
        }
      }
      RecordComponentValues(next, c, required[1..], comps);
      assert RecordComponent(dict, c, required) == RecordComponent(next, c, required[1..]);
    }
  }

  /** The table only ever holds component values. */
  lemma {:induction false} BuildLookupValues(comps: seq<AddressComponent>, required: seq<ComponentSpec>)
    ensures forall k :: k in BuildLookup(comps, required) ==> IsComponentValue(comps, BuildLookup(comps, required)[k])
    decreases |comps|
  {
    if |comps| > 0 {
      var n := |comps| - 1;
      var prefix := comps[..n];
      BuildLookupValues(prefix, required);
      var d := BuildLookup(prefix, required);
      forall k | k in d ensures IsComponentValue(comps, d[k]) {
        var i, st :| 0 <= i < |prefix| && d[k] == prefix[i].Value(st);
        assert comps[i] == prefix[i];
      }
      assert comps[n] in comps;
      RecordComponentValues(d, comps[n], required, comps);
      assert BuildLookup(comps, required) == RecordComponent(d, comps[n], required);
    }
  }

  /** Every component's value in style `st`, in list order. */
  function Values(comps: seq<AddressComponent>, st: Style): seq<string>
  {
    seq(|comps|, i requires 0 <= i < |comps| => comps[i].Value(st))
  }

  /** What one spec adds to a field's value list: the wildcard adds every
      component's value; any other spec adds its table entry when there is
      one and nothing otherwise. */
  function Contribution(spec: ComponentSpec, comps: seq<AddressComponent>, lookup: Lookup): seq<string>
  {
    if spec.addressType == Wildcard then
      match spec.style
      case Some(st) => Values(comps, st)
      case None => []
    else if spec.style.Some? && Key(spec.addressType, spec.style.value) in lookup then
      [lookup[Key(spec.addressType, spec.style.value)]]
    else []
  }

  /** The `val` list a field collects, spec after spec. */
  function Collect(fill: seq<ComponentSpec>, comps: seq<AddressComponent>, lookup: Lookup): seq<string>
  {
    if |fill| == 0 then [] else Contribution(fill[0], comps, lookup) + Collect(fill[1..], comps, lookup)
  }

  /** The string written into a field: its collected values joined with its
      separator. */
  function FieldValue(fm: FieldMapping, comps: seq<AddressComponent>, lookup: Lookup): string
  {
    Join(Collect(fm.fill, comps, lookup), fm.separator)
  }

  /** Values are collected in declared spec order: the list for `a + b` is
      the list for `a` followed by the list for `b`. */
  lemma {:induction false} CollectAppend(a: seq<ComponentSpec>, b: seq<ComponentSpec>,
                                         comps: seq<AddressComponent>, lookup: Lookup)
    ensures Collect(a + b, comps, lookup) == Collect(a, comps, lookup) + Collect(b, comps, lookup)
  {
    if |a| == 0 {
      assert a + b == b;
    } else {
      assert (a + b)[1..] == a[1..] + b;
      CollectAppend(a[1..], b, comps, lookup);
    }
  }

  /** A wildcard spec contributes the chosen style of every component, in
      list order, so a field holding only it shows them all joined. */
  lemma WildcardCompleteness(target: string, st: Style, sep: string,
                             comps: seq<AddressComponent>, lookup: Lookup)
    ensures var v := Collect([ComponentSpec(Wildcard, Some(st))], comps, lookup);
            |v| == |comps| && forall i :: 0 <= i < |comps| ==> v[i] == comps[i].Value(st)
    ensures FieldValue(FieldMapping(target, [ComponentSpec(Wildcard, Some(st))], sep), comps, lookup)
            == Join(Values(comps, st), sep)
  {
    var fill := [ComponentSpec(Wildcard, Some(st))];
    assert fill[1..] == [];
    assert Collect(fill, comps, lookup) == Values(comps, st) + [];
    assert Values(comps, st) + [] == Values(comps, st);
  }

  /** A non-wildcard spec adds at most one value: the value of the last
      component with its primary type, and nothing when no component has
      that type or its style is unknown. */
  lemma SpecContribution(spec: ComponentSpec, comps: seq<AddressComponent>, required: seq<ComponentSpec>)
    requires ParsedSpecs(required)
    requires spec in required
    requires spec.addressType != Wildcard
    ensures var r := Contribution(spec, comps, BuildLookup(comps, required));
            && |r| <= 1
            && (|r| == 1 <==> spec.style.Some? && HasPrimary(comps, spec.addressType))
            && forall i :: IsLastWithPrimary(comps, spec.addressType, i) && spec.style.Some? ==>
                 r == [comps[i].Value(spec.style.value)]
  {
    var k :| 0 <= k < |required| && required[k] == spec;
    if spec.style.Some? {
      BuildLookupSpec(comps, required, spec.addressType, spec.style.value);
    }
  }

  /** A missing component collapses: with specs `[A, B, C]` where no
      component has B's type, the field shows A's value, the separator and
      C's value, with no empty slot and no doubled separator. */
  lemma MissingCollapse(a: ComponentSpec, b: ComponentSpec, c: ComponentSpec, sep: string, target: string,
                        comps: seq<AddressComponent>, required: seq<ComponentSpec>, ia: nat, ic: nat)
    requires ParsedSpecs(required)
    requires a in required && b in required && c in required
    requires a.addressType != Wildcard && b.addressType != Wildcard && c.addressType != Wildcard
    requires a.style.Some? && c.style.Some?
    requires IsLastWithPrimary(comps, a.addressType, ia)
    requires IsLastWithPrimary(comps, c.addressType, ic)
    requires !HasPrimary(comps, b.addressType)
    ensures FieldValue(FieldMapping(target, [a, b, c], sep), comps, BuildLookup(comps, required))
            == comps[ia].Value(a.style.value) + sep + comps[ic].Value(c.style.value)
  {
    var lookup := BuildLookup(comps, required);
    SpecContribution(a, comps, required);
    SpecContribution(b, comps, required);
    SpecContribution(c, comps, required);
    var fill := [a, b, c];
    assert fill[1..] == [b, c];
    assert fill[1..][1..] == [c];
    assert fill[1..][1..][1..] == [];
    var va := comps[ia].Value(a.style.value);
    var vc := comps[ic].Value(c.style.value);
    assert Contribution(a, comps, lookup) == [va];
    assert Contribution(b, comps, lookup) == [];
    assert Contribution(c, comps, lookup) == [vc];
    assert Collect([c], comps, lookup) == [vc];
    assert Collect([b, c], comps, lookup) == [vc];
    assert Collect(fill, comps, lookup) == [va, vc];
    assert [va, vc][1..] == [vc];
    assert Join([va, vc], sep) == va + sep + vc;
  }

  /** No empty placeholder is ever collected: every collected value is the
      value of some component of the place. */
  lemma {:induction false} NoEmptySlot(fill: seq<ComponentSpec>, comps: seq<AddressComponent>,
                                       required: seq<ComponentSpec>)
    ensures forall v :: v in Collect(fill, comps, BuildLookup(comps, required)) ==> IsComponentValue(comps, v)
  {
    var lookup := BuildLookup(comps, required);
    BuildLookupValues(comps, required);
    if |fill| > 0 {
      NoEmptySlot(fill[1..], comps, required);
      var head := Contribution(fill[0], comps, lookup);
      forall x | x in head ensures IsComponentValue(comps, x) {
        var k :| 0 <= k < |head| && head[k] == x;
        if fill[0].addressType == Wildcard {
          assert head[k] == comps[k].Value(fill[0].style.value);
        }
      }
      assert Collect(fill, comps, lookup) == head + Collect(fill[1..], comps, lookup);
    }
  }
}
