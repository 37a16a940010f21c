/** `SoftwareController`: the published-software catalogue entry, its on/off
    switch, and the public `show` endpoint that hides disabled entries. */
module SoftwareController {
  import opened Common

  /** The fields `store` and `update` accept.  `update` only writes what the
      request carries, so the optional columns are `None` when absent and
      `Some(None)` when sent as null. */
  datatype SoftwareForm = SoftwareForm(
    name: string,
    latestVersion: string,
    downloadUrl: Option<Option<string>>,
    isActive: Option<bool>,
    notes: Option<Option<string>>)

  /** `required|string|max:255`, `required|string|max:50`, `max:2048`. */
  predicate FormOk(f: SoftwareForm) {
    && 0 < |f.name| <= 255
    && 0 < |f.latestVersion| <= 50
    && (f.downloadUrl.None? || f.downloadUrl.value.None? || |f.downloadUrl.value.value| <= 2048)
  }

  /** The JSON `show` answers with. */
  datatype ShowResult = Disabled | Info(name: string, latestVersion: string, downloadUrl: Option<string>)

  /** One row of `softwares`. */
  class Software {
    var name: string
    var latestVersion: string
    var downloadUrl: Option<string>
    var isActive: bool
    var notes: Option<string>

    /** `Software::create($validated)`: `is_active` is not among the validated
        fields, so the column default makes every new entry active. */
    constructor (f: SoftwareForm)
      ensures name == f.name && latestVersion == f.latestVersion
      ensures downloadUrl == (if f.downloadUrl.Some? then f.downloadUrl.value else None)
      ensures notes == (if f.notes.Some? then f.notes.value else None)
      ensures isActive
    {
      name := f.name;
      latestVersion := f.latestVersion;
      downloadUrl := f.downloadUrl.GetOr(None);
      notes := f.notes.GetOr(None);
      isActive := true;
    }

    /** `toggleStatus`: flips `is_active`; no other column changes. */
    method ToggleStatus()
      modifies this`isActive
      ensures isActive == !old(isActive)
    {
      isActive := !isActive;
    }

    /** `update($validated)`: the required columns always, the others only
        when the request carries them. */
    method Update(f: SoftwareForm)
      modifies this
      ensures name == f.name && latestVersion == f.latestVersion
      ensures downloadUrl == (if f.downloadUrl.Some? then f.downloadUrl.value else old(downloadUrl))
      ensures isActive == (if f.isActive.Some? then f.isActive.value else old(isActive))
      ensures notes == (if f.notes.Some? then f.notes.value else old(notes))
    {
      name, latestVersion := f.name, f.latestVersion;
      downloadUrl := f.downloadUrl.GetOr(downloadUrl);
      isActive := f.isActive.GetOr(isActive);
      notes := f.notes.GetOr(notes);
    }

    /** `show`: a disabled entry answers 404; an enabled one exactly its name,
        version and download link. */
    function Show(): (r: ShowResult)
      reads this
      ensures r.Disabled? <==> !isActive
      ensures r.Info? ==> r.name == name && r.latestVersion == latestVersion && r.downloadUrl == downloadUrl
    {
      if !isActive then Disabled else Info(name, latestVersion, downloadUrl)
    }
  }

  /** The HTTP status of a `show` answer. */
  function ShowStatus(r: ShowResult): (code: int)
    ensures code == 404 <==> r.Disabled?
    ensures code == 200 <==> r.Info?
  {
    if r.Disabled? then 404 else 200
  }

  /** `store`: validation, then a new active entry. */
  method StoreSoftware(f: SoftwareForm) returns (s: Option<Software>)
    ensures s.Some? <==> FormOk(f)
    ensures s.Some? ==> fresh(s.value) && s.value.isActive && s.value.Show().Info? &&
                        s.value.name == f.name && s.value.latestVersion == f.latestVersion &&
                        s.value.downloadUrl == f.downloadUrl.GetOr(None) && s.value.notes == f.notes.GetOr(None)
  {
    if !FormOk(f) {
      return None;
    }
    var created := new Software(f);
    s := Some(created);
  }

  /** `update` through the form: a refused form leaves the row alone. */
  method UpdateSoftware(sw: Software, f: SoftwareForm) returns (ok: bool)
    modifies sw
    ensures ok == FormOk(f)
    ensures !ok ==> sw.name == old(sw.name) && sw.latestVersion == old(sw.latestVersion) &&
                    sw.downloadUrl == old(sw.downloadUrl) && sw.isActive == old(sw.isActive) && sw.notes == old(sw.notes)
    ensures ok ==> sw.name == f.name && sw.latestVersion == f.latestVersion &&
                   sw.downloadUrl == (if f.downloadUrl.Some? then f.downloadUrl.value else old(sw.downloadUrl)) &&
                   sw.isActive == (if f.isActive.Some? then f.isActive.value else old(sw.isActive)) &&
                   sw.notes == (if f.notes.Some? then f.notes.value else old(sw.notes))
  {
    ok := FormOk(f);
    if ok {
      sw.Update(f);
    }
  }

  /** Two toggles restore the switch, and with it what `show` answers. */
  method ToggleTwice(sw: Software)
    modifies sw
    ensures sw.isActive == old(sw.isActive)
    ensures sw.Show() == old(sw.Show())
  {
    sw.ToggleStatus();
    sw.ToggleStatus();
  }

  /** One toggle always changes what `show` answers between 404 and 200. */
  method ToggleFlipsVisibility(sw: Software)
    modifies sw
    ensures ShowStatus(sw.Show()) != ShowStatus(old(sw.Show()))
  {
    sw.ToggleStatus();
  }
}
