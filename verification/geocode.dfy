/** The result-selection branch of `getAddressAtLatLng`: which reverse
    geocoding candidate is projected, and what the user is told otherwise.
    The geocoder call itself is outside the model; its `(results, status)`
    callback arguments are parameters here. */
module Geocode {
  import opened Wrappers
  import opened Mapping
  import opened Projection
  import opened Autofill

  /** The value of `google.maps.GeocoderStatus.OK`. */
  const StatusOK: string := "OK"

  /** What the callback does with a geocoder response. */
  datatype ReverseOutcome =
    | Project(place: Place)
    | NoResultsFound
    | ServiceFailure(status: string)

  /** The selection rule: on an OK status the second candidate is used,
      never the first; with fewer than two candidates nothing is projected;
      any other status is a failure carrying that status. */
  function SelectReverse(status: string, results: seq<Place>): (r: ReverseOutcome)
    ensures r.Project? <==> status == StatusOK && |results| >= 2
    ensures r.Project? ==> r.place == results[1]
    ensures r.NoResultsFound? <==> status == StatusOK && |results| < 2
    ensures r.ServiceFailure? ==> r.status == status && status != StatusOK
  {
    if status == StatusOK then
      if |results| >= 2 then Project(results[1]) else NoResultsFound
    else ServiceFailure(status)
  }

  /** The text of the alert shown for an outcome that projects nothing. */
  function AlertText(outcome: ReverseOutcome): Option<string>
  {
    match outcome
    case Project(_) => None
    case NoResultsFound => Some("No results found")
    case ServiceFailure(status) => Some("Geocoder failed due to: " + status)
  }

  /** The first candidate is never consulted: replacing it changes
      nothing. */
  lemma ReverseIgnoresFirst(status: string, results: seq<Place>, other: Place)
    requires |results| >= 1
    ensures SelectReverse(status, [other] + results[1..]) == SelectReverse(status, results)
  {
  }

  /** A failure alert names the status: different statuses give different
      alerts, and no failure alert reads like the no-results alert. */
  lemma FailureAlertCarriesStatus(s1: string, s2: string)
    requires s1 != StatusOK && s2 != StatusOK
    ensures AlertText(SelectReverse(s1, [])) == AlertText(SelectReverse(s2, [])) <==> s1 == s2
    ensures AlertText(SelectReverse(s1, [])) != AlertText(NoResultsFound)
  {
    var prefix := "Geocoder failed due to: ";
    if prefix + s1 == prefix + s2 {
      assert s1 == (prefix + s1)[|prefix|..];
      assert s2 == (prefix + s2)[|prefix|..];
    }
    assert (prefix + s1)[0] != "No results found"[0];
  }

  /** The whole callback: the page after it, and the alert shown, if any. */
  datatype CallbackResult = CallbackResult(sink: Sink, alert: Option<string>)

  /** `getAddressAtLatLng`'s callback: the selected candidate is passed to
      `fillInAddress`; otherwise the page is untouched and an alert says
      why. */
  function GetAddressAtLatLng(form: AddressForm, status: string, results: seq<Place>, sink: Sink): (r: CallbackResult)
    ensures r.alert.None? <==> status == StatusOK && |results| >= 2
    ensures r.alert.None? ==> r.sink == FillInAddress(form, Some(results[1]), sink).sink
    ensures r.alert.Some? ==> r.sink == sink
    ensures status == StatusOK && |results| < 2 ==> r.alert == Some("No results found")
    ensures status != StatusOK ==> r.alert == Some("Geocoder failed due to: " + status)
  {
    var outcome := SelectReverse(status, results);
    match outcome
    case Project(place) => CallbackResult(FillInAddress(form, Some(place), sink).sink, None)
    case _ => CallbackResult(sink, AlertText(outcome))
  }
}
