/** The mapping compiler: the constructor's loop that turns the
    `autoFillTargetFields` configuration into the ordered list of field
    mappings (`autoFillAddressForm`) and the flat `requiredAddressTypes`. */
module Mapping {
  import opened Wrappers
  import opened Text

  /** The two forms an address component carries, the values of the
      `addressStyles` table. */
  datatype Style = LongName | ShortName

  /** The property name a style reads on an address component. */
  function StyleName(st: Style): string
  {
    match st
    case LongName => "long_name"
    case ShortName => "short_name"
  }

  /** Neither style name contains the `:` used to build lookup keys. */
  lemma StyleNameNoColon(st: Style)
    ensures ':' !in StyleName(st)
  {
  }

  /** `addressStyles[name]`: a style for one of the two table keys, absent
      (JavaScript `undefined`) for every other token. */
  function LookupStyle(name: string): (r: Option<Style>)
    ensures r.Some? ==> StyleName(r.value) == name
    ensures forall st :: StyleName(st) == name ==> r == Some(st)
  {
    if name == "long_name" then Some(LongName)
    else if name == "short_name" then Some(ShortName)
    else None
  }

  /** The wildcard component type that stands for every component. */
  const Wildcard: string := "_all"

  /** One `{type, style}` entry of a field's `fill` list. */
  datatype ComponentSpec = ComponentSpec(addressType: string, style: Option<Style>)

  /** `"type:style"` parsed: the type is everything before the first `:`,
      the style is looked up from the text between the first and the
      second `:`, and a string without `:` selects the long form. */
  function ParseSpec(s: string): (spec: ComponentSpec)
    ensures ':' !in spec.addressType
    ensures spec.addressType <= s
    ensures |spec.addressType| < |s| ==> s[|spec.addressType|] == ':'
    ensures |spec.addressType| < |s| ==>
              spec.style == LookupStyle(Split(s[|spec.addressType| + 1..], ':')[0])
    ensures ':' !in s ==> spec == ComponentSpec(s, Some(LongName))
  {
    var parts := Split(s, ':');
    if |parts| > 1 then
      var rest := Join(parts[1..], ":");
      assert s == parts[0] + ":" + rest;
      assert s[|parts[0]| + 1..] == rest;
      SplitAfterPart(parts[0], ':', rest);
      ComponentSpec(parts[0], LookupStyle(parts[1]))
    else
      ComponentSpec(parts[0], Some(LongName))
  }

  /** `type + ':' + style`: the explicit configuration string for a spec,
      and the key of the projector's lookup table. */
  function Key(addressType: string, st: Style): string
  {
    addressType + ":" + StyleName(st)
  }

  /** A string with exactly one `:` takes its style from the whole text
      after it: a recognised name gives that style, any other text
      (including the empty text) gives no style. */
  lemma ParseExplicit(addressType: string, token: string)
    requires ':' !in addressType && ':' !in token
    ensures ParseSpec(addressType + ":" + token) == ComponentSpec(addressType, LookupStyle(token))
  {
  }

  /** Only the first two `:`-separated parts are read: anything after a
      second `:` leaves the spec what the first two parts make it. */
  lemma ExtraPartsIgnored(addressType: string, token: string, extra: string)
    requires ':' !in addressType && ':' !in token
    ensures ParseSpec(addressType + ":" + token + ":" + extra) == ComponentSpec(addressType, LookupStyle(token))
  {
    var s := addressType + ":" + token + ":" + extra;
    assert s == addressType + [':'] + (token + [':'] + extra);
    SplitAfterPart(addressType, ':', token + [':'] + extra);
    SplitAfterPart(token, ':', extra);
  }

  /** Parsing an explicit `"type:style"` gives back that type and style. */
  lemma ParseKey(addressType: string, st: Style)
    requires ':' !in addressType
    ensures ParseSpec(Key(addressType, st)) == ComponentSpec(addressType, Some(st))
  {
    StyleNameNoColon(st);
    ParseExplicit(addressType, StyleName(st));
  }

  /** A component string with no style suffix means the same as the same
      type with an explicit `:long_name`. */
  lemma ImplicitLongName(addressType: string)
    requires ':' !in addressType
    ensures ParseSpec(addressType) == ParseSpec(addressType + ":long_name")
  {
    var explicit := addressType + ":long_name";
    assert explicit == Key(addressType, LongName);
    ParseKey(addressType, LongName);
    assert ParseSpec(addressType) == ComponentSpec(addressType, Some(LongName));
  }

  /** One entry of the configuration object, in enumeration order:
      the target field id, its `components` strings and its optional
      `separator`. */
  datatype RawField = RawField(target: string, components: seq<string>, separator: Option<string>)

  /** The separator used when a field does not configure one. */
  const DefaultSeparator: string := ", "

  /** One entry of `autoFillAddressForm`. */
  datatype FieldMapping = FieldMapping(target: string, fill: seq<ComponentSpec>, separator: string)

  /** The compiled configuration: `autoFillAddressForm` and
      `requiredAddressTypes`. */
  datatype AddressForm = AddressForm(fields: seq<FieldMapping>, required: seq<ComponentSpec>)

  /** `fm` is what the compiler makes of `raw`. */
  ghost predicate CompiledFrom(fm: FieldMapping, raw: RawField)
  {
    && fm.target == raw.target
    && fm.separator == raw.separator.GetOr(DefaultSeparator)
    && |fm.fill| == |raw.components|
    && forall j :: 0 <= j < |fm.fill| ==> fm.fill[j] == ParseSpec(raw.components[j])
  }

  /** Every field's specs, field after field, in declared order. */
  function Flatten(fields: seq<FieldMapping>): seq<ComponentSpec>
  {
    if |fields| == 0 then [] else Flatten(fields[..|fields| - 1]) + fields[|fields| - 1].fill
  }

  /** The number of component strings across all configured fields. */
  function TotalComponents(config: seq<RawField>): nat
  {
    if |config| == 0 then 0
    else TotalComponents(config[..|config| - 1]) + |config[|config| - 1].components|
  }

  /** What the projector relies on: lookup types never contain `:` (so
      lookup keys cannot collide) and every spec a field uses is required. */
  ghost predicate WellFormed(form: AddressForm)
  {
    && (forall k :: 0 <= k < |form.required| ==> ':' !in form.required[k].addressType)
    && (forall i, j :: 0 <= i < |form.fields| && 0 <= j < |form.fields[i].fill| ==>
          form.fields[i].fill[j] in form.required)
  }

  /** A spec list made of parsed specs only has colon-free types. */
  ghost predicate ParsedSpecs(fill: seq<ComponentSpec>)
  {
    forall j :: 0 <= j < |fill| ==> ':' !in fill[j].addressType
  }

  /** Flattening fields whose specs are colon-free gives a well-formed
      form. */
  lemma {:induction false} FlattenWellFormed(fields: seq<FieldMapping>)
    requires forall i :: 0 <= i < |fields| ==> ParsedSpecs(fields[i].fill)
    ensures WellFormed(AddressForm(fields, Flatten(fields)))
    decreases |fields|
  {
    if |fields| > 0 {
      var n := |fields| - 1;
      var prefix := fields[..n];
      assert forall i :: 0 <= i < |prefix| ==> prefix[i] == fields[i];
      FlattenWellFormed(prefix);
      var flat := Flatten(fields);
      assert flat == Flatten(prefix) + fields[n].fill;
      forall k | 0 <= k < |flat| ensures ':' !in flat[k].addressType {
        if k >= |Flatten(prefix)| {
          assert flat[k] == fields[n].fill[k - |Flatten(prefix)|];
        } else {
          assert flat[k] == Flatten(prefix)[k];
        }
      }
      forall i, j | 0 <= i < |fields| && 0 <= j < |fields[i].fill| ensures fields[i].fill[j] in flat {
        if i < n {
          assert prefix[i].fill[j] in Flatten(prefix);
        } else {
          assert flat[|Flatten(prefix)| + j] == fields[n].fill[j];
        }
      }
    }
  }

  /** The inner loop over one field's `components`: each string parsed, in
      order. */
  method ParseComponents(components: seq<string>) returns (fill: seq<ComponentSpec>)
    ensures |fill| == |components|
    ensures forall j :: 0 <= j < |components| ==> fill[j] == ParseSpec(components[j])
    ensures ParsedSpecs(fill)
  {
    fill := [];
    var j := 0;
    while j < |components|
      invariant 0 <= j <= |components|
      invariant |fill| == j
      invariant forall k :: 0 <= k < j ==> fill[k] == ParseSpec(components[k])
    {
      fill := fill + [ParseSpec(components[j])];
      j := j + 1;
    }
  }

  /** The constructor's configuration loop. Field order and spec order are
      kept, each field's separator defaults to `", "`, and every parsed spec,
      the wildcard included, is appended to `required` in order. */
  method Compile(config: seq<RawField>) returns (form: AddressForm)
    ensures |form.fields| == |config|
    ensures forall i :: 0 <= i < |config| ==> CompiledFrom(form.fields[i], config[i])
    ensures form.required == Flatten(form.fields)
    ensures |form.required| == TotalComponents(config)
    ensures WellFormed(form)
  {
    var fields: seq<FieldMapping> := [];
    var required: seq<ComponentSpec> := [];
    var i := 0;
    while i < |config|
      invariant 0 <= i <= |config|
      invariant |fields| == i
      invariant forall k :: 0 <= k < i ==> CompiledFrom(fields[k], config[k])
      invariant forall k :: 0 <= k < i ==> ParsedSpecs(fields[k].fill)
      invariant required == Flatten(fields)
      invariant |required| == TotalComponents(config[..i])
    {
      var separator := config[i].separator.GetOr(DefaultSeparator);
      var fill := ParseComponents(config[i].components);
      var fm := FieldMapping(config[i].target, fill, separator);
      assert (fields + [fm])[..|fields|] == fields;
      assert config[..i + 1][..i] == config[..i];
      fields := fields + [fm];
      required := required + fill;
      i := i + 1;
    }
    assert config[..i] == config;
    FlattenWellFormed(fields);
    form := AddressForm(fields, required);
  }
}
