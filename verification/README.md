# LocationAutocomplete address autofill, modelled in Dafny

This project models the address-filling engine of the `LocationAutocomplete`
jQuery widget (`src/location-autocomplete.js`). The widget binds a text input
to the Google Places autocomplete and fills other form fields from the chosen
place. The model covers three parts:

- **Mapping compiler** (`mapping.dfy`, module `Mapping`). The constructor's
  loop turns the `autoFillTargetFields` object into `autoFillAddressForm` and
  `requiredAddressTypes`. Each `"type:style"` string is split on `:`
  (`text.dfy` models JavaScript `split` and `join`). The style is looked up in
  `addressStyles`, and the separator defaults to `", "`.
- **Component projector** (`projection.dfy` and `autofill.dfy`, modules
  `Projection` and `Autofill`). `fillInAddress` clears every target, then
  builds the `type:style` lookup table from each component's `types[0]`. It
  collects each field's values in declared order, with `_all` expanding to
  every component, and joins them with the field's separator. The form is a
  map from element id to `(value, disabled)`.
- **Reverse-geocode result selection** (`geocode.dfy`, module `Geocode`).
  The `getAddressAtLatLng` callback projects `results[1]` on status `OK`.
  Otherwise it returns the alert text as a value.

`wrappers.dfy` holds the `Option` type that stands for JavaScript `undefined`.

Two facts about the code shape the model:

- `requiredAddressTypes` receives every parsed spec, `_all` included
  (line 44), and `Mapping.Compile` does the same. A component whose
  `types[0]` is `_all` therefore gets a table entry that no field reads.
- An unrecognised style token stays `undefined` (lines 37-38). The model
  uses `None`. A non-wildcard spec with style `None` never hits the table:
  its key would be `"type:undefined"`, and that key holds only `undefined`.

## Model

| member | source | states |
|---|---|---|
| Text.Split | src/location-autocomplete.js:31 | `split(':')` always gives at least one part. No part contains the delimiter. Joining the parts with the delimiter gives back the input. |
| Text.SplitJoin | src/location-autocomplete.js:31 | The inverse direction: splitting the join of delimiter-free parts gives back exactly those parts. |
| Mapping.LookupStyle | src/location-autocomplete.js:66-69 | `addressStyles[name]` is a style exactly when `name` is that style's property name. Every other token is absent. |
| Mapping.ParseSpec | src/location-autocomplete.js:31-42 | The parsed type is the prefix of the string before the first `:` and contains no `:`. When there is a `:`, the style is `addressStyles` looked up at the text between the first and the second `:` (absent for an unrecognised token). A string with no `:` becomes that whole string with the long style. |
| Mapping.ParseExplicit | src/location-autocomplete.js:31-41 | For `"type:token"` with colon-free parts, the spec is that type with `addressStyles[token]`: `long_name` and `short_name` give their style, and any other token, the empty one included, gives no style. |
| Mapping.ParseKey | src/location-autocomplete.js:31-42 | Parsing an explicit `"type:style"` (with a colon-free type) gives back that type and that style. |
| Mapping.ImplicitLongName | src/location-autocomplete.js:36-41 | A component string with no style suffix compiles to the same spec as `"type:long_name"`. |
| Mapping.ExtraPartsIgnored | src/location-autocomplete.js:31-41 | For any colon-free type and token, text after a second `:` does not change the parsed spec. Only parts 0 and 1 are read. |
| Mapping.ParseComponents | src/location-autocomplete.js:30-45 | One spec per component string, in the same order, each the parse of its string. All of them have colon-free types. |
| Mapping.Compile | src/location-autocomplete.js:23-51 | One field mapping per config entry, in order, with the same target. The separator is the configured one when present, otherwise `", "`. Each field's specs are its parsed strings in order. `required` is every field's specs concatenated, `_all` included, so its length is the total number of component strings. Every used spec is required and has a colon-free type. |
| Projection.KeyInjective | src/location-autocomplete.js:97 | Lookup keys `type + ':' + style` built from colon-free types are equal only for equal `(type, style)` pairs. |
| Projection.RecordComponentSpec | src/location-autocomplete.js:89-99 | Recording one component sets the key of a required `(type, style)` to that component's value exactly when `types[0]` is that type. Every other key keeps its entry. |
| Projection.BuildLookupSpec | src/location-autocomplete.js:88-100 | The table has a `type:style` entry exactly when that spec is required and some component has that primary type. The entry is the value of the last such component, so a later component wins. |
| Projection.BuildLookupValues | src/location-autocomplete.js:88-100 | Every table entry is a component's value in some style. |
| Projection.CollectAppend | src/location-autocomplete.js:101-116 | Values are collected in declared spec order. The list for specs `a + b` is the list for `a` followed by the list for `b`. |
| Projection.WildcardCompleteness | src/location-autocomplete.js:104-110 | An `_all` spec adds the chosen style of every component, in list order. A field holding only it shows all of them joined by its separator. |
| Projection.SpecContribution | src/location-autocomplete.js:111-116 | A non-wildcard spec adds at most one value. It adds one exactly when its style is known and some component has its type. That value is the last such component's value. |
| Projection.MissingCollapse | src/location-autocomplete.js:111-118 | For specs `[A, B, C]` with no component of B's type, the field is `A + sep + C`. There is no empty slot and no doubled separator. |
| Projection.NoEmptySlot | src/location-autocomplete.js:103-116 | Every collected value is the value of some component of the place. No placeholder is ever inserted. |
| Autofill.ClearAddressFields | src/location-autocomplete.js:71-77 | Every target element ends up with value `""` and not disabled. Non-target elements and the set of elements are unchanged. |
| Autofill.WriteFields | src/location-autocomplete.js:101-119 | Each target holds the joined value of the last mapping that targets it. `disabled` flags, non-target elements and the set of elements are unchanged. |
| Autofill.FillInAddress | src/location-autocomplete.js:78-120 | It returns false exactly when the mapping is empty, the place is missing or its `address_components` is missing. In that case targets are only cleared. In every case targets are re-enabled and non-targets are untouched. When it fills, each target holds the value projected through the table built from the components. |
| Autofill.NoStaleValue | src/location-autocomplete.js:78-120 | The result does not depend on what the targets held, or whether they were disabled, before the call. |
| Autofill.FillIdempotent | src/location-autocomplete.js:78-120 | Running `fillInAddress` again with the same place leaves the page as the first run left it. |
| Autofill.Initialize | src/location-autocomplete.js:23-64 | The constructor's compiled form has one mapping per configuration entry, compiled from it in order. `required` is every field's specs concatenated, with the total count of component strings as its length, and the form is well formed. Every configured target is left cleared and enabled, and all other elements are unchanged. |
| Geocode.SelectReverse | src/location-autocomplete.js:142-151 | A place is projected exactly when the status is `OK` and there are at least two candidates, and that place is `results[1]`. With fewer candidates the outcome is "no results". Any other status is a failure that carries the status. |
| Geocode.ReverseIgnoresFirst | src/location-autocomplete.js:143-145 | The first candidate is never consulted. Replacing it never changes the outcome. |
| Geocode.FailureAlertCarriesStatus | src/location-autocomplete.js:147-150 | Failure alerts for different statuses differ, so the status can be read back. No failure alert equals the no-results alert. |
| Geocode.GetAddressAtLatLng | src/location-autocomplete.js:141-152 | No alert is shown exactly when `results[1]` is projected. Then the page is what `fillInAddress(results[1])` leaves. When an alert is shown, the page is untouched and the alert text is fixed by the status. |

## Left out

- DOM lookup of the bound input and the `<input type=text>` check that throws (lines 13-19): element plumbing. The source resolves each target element once, in the constructor (lines 26, 47), and later writes go to that stored selection. The model keeps the set of elements fixed: the form map's keys are set at construction, and every operation preserves them. An id with no element is missing from the map, and writes to it do nothing, as with an empty jQuery selection.
- Construction of the `Autocomplete` and `Geocoder` objects, the `place_changed` listener and the geolocate-button click binding (lines 20-22, 52-63): calls into the Google Maps API and event wiring.
- `geolocate` (lines 121-137): the browser geolocation callback, built on floating-point coordinates.
- The geocoder request itself: its callback arguments `(results, status)` are parameters of `Geocode.GetAddressAtLatLng`.
- `window.alert` is modelled as the returned alert text, not as I/O.
- The `this.autocomplete.getPlace()` fallback when `fillInAddress` gets no argument (line 79): the place is a parameter.
- Asynchronous ordering of callbacks, and the last-response-wins race between overlapping geocoder requests: concurrency.
- JavaScript `for...in` enumeration order (integer-like keys first): the configuration is given as a sequence already in enumeration order. An absent configuration is the empty sequence, which iterates nothing, as in the source.
- The leaked global `targetId` (line 25): it has no effect on the computed values.
- Projection.Contribution: an `_all` spec with an unrecognised style contributes nothing. In the source it pushes `undefined` once per component, and `join` renders those as empty strings between separators.
- Style tokens that name `Object.prototype` members (such as `toString`) are treated like any other unrecognised token.
- Inputs the source would throw on or stringify oddly are outside the value types: missing `components` or `types` arrays, a `null` separator, components without `long_name`/`short_name`.
- Mapping.Compile: it appends a field's specs to `required` once the whole field is parsed. The source appends each spec as soon as it is parsed. The resulting list is the same.
- Projection.RecordComponent: the source first collects the matching styles of a component and then writes them. The model writes them in one pass. For a required spec with an unknown style, line 97 also writes the key `"type:undefined"` with value `undefined`, which the model skips. The keys that can hit are the same, with the same values.
- Forward geocoding on Enter, a self-fill target key `0`, and a default `_all` mapping when no configuration is given are not in `src/location-autocomplete.js`, and are not part of this model.
