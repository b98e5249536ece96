/** The verdict of the startup update check: the installed server version
    (read from the backend's version file) against the latest published one.
    Both readers are I/O and arrive here as optional strings, already
    stripped, `None` when the read failed. */
module UpdateCheck {
  import opened Wrappers
  import opened Versions

  datatype UpdateStatus =
    | UpdateAvailable   // "CHIM Server Update Available", red
    | UpToDate          // "CHIM Server is up-to-date", green
    | CouldNotRetrieve  // "Could not retrieve version information", yellow

  /** `int()` raised on a part of one of the two versions; the checking
      thread ends without setting any verdict. */
  datatype CheckError = MalformedVersion

  /** Python truthiness of an optional string: neither `None` nor "". */
  predicate Present(v: Option<string>)
  {
    v.Some? && |v.value| > 0
  }

  /** The decision at the end of `check_for_updates`. */
  function CheckForUpdates(current: Option<string>, latest: Option<string>): (r: Result<UpdateStatus, CheckError>)
    ensures r == Success(CouldNotRetrieve) <==> !Present(current) || !Present(latest)
    ensures r.Failure? <==>
              && Present(current) && Present(latest)
              && (ParseVersion(current.value).None? || ParseVersion(latest.value).None?)
    ensures r == Success(UpdateAvailable) <==>
              && Present(current) && Present(latest)
              && ParseVersion(current.value).Some? && ParseVersion(latest.value).Some?
              && Older(ParseVersion(current.value).value, ParseVersion(latest.value).value)
    ensures r == Success(UpToDate) <==>
              && Present(current) && Present(latest)
              && ParseVersion(current.value).Some? && ParseVersion(latest.value).Some?
              && !Older(ParseVersion(current.value).value, ParseVersion(latest.value).value)
  {
    if Present(current) && Present(latest) then
      match CompareVersions(current.value, latest.value)
      case None => Failure(MalformedVersion)
      case Some(comparison) =>
        if comparison < 0 then Success(UpdateAvailable) else Success(UpToDate)
    else
      Success(CouldNotRetrieve)
  }

  /** An installed version newer than the published one still reads as up to date. */
  lemma NewerLocalIsUpToDate(current: string, latest: string)
    requires |current| > 0 && |latest| > 0
    requires ParseVersion(current).Some? && ParseVersion(latest).Some?
    requires Older(ParseVersion(latest).value, ParseVersion(current).value)
    ensures CheckForUpdates(Some(current), Some(latest)) == Success(UpToDate)
  {
    var a, b := ParseVersion(current).value, ParseVersion(latest).value;
    CompareAntisymmetric(a, b);
  }

  /** An empty version file reads the same as a missing one. */
  lemma EmptyVersionCouldNotRetrieve(latest: Option<string>)
    ensures CheckForUpdates(Some(""), latest) == Success(CouldNotRetrieve)
    ensures CheckForUpdates(latest, Some("")) == Success(CouldNotRetrieve)
  {
  }
}
