/**
 The decisions of the settings form's `validateForm()`
 (src/Form/AnonymousTimezoneSettingsForm.php): whether a GeoIP2 database is
 available at all, which path the reader is tried on, which error is set on
 the `geodb` element, and what the `geodb` value becomes.
 */
module SettingsValidation {
  import opened Php

  /** What `new Reader($path)` followed by `->city($_SERVER['REMOTE_ADDR'])` does. */
  datatype ReaderCheck = Opens | Raises(message: string)

  /** The error set on the `geodb` element. */
  datatype FormError =
    | NoGeoDbAvailable          // neither an existing path nor an upload
    | ReaderError(message: string)  // the message of the reader's exception

  /** The outcome of validation: the error, the path the reader was tried on, and the final `geodb` value. */
  datatype Validation = Validation(error: Option<FormError>, checkedPath: Option<string>, geodb: string)

  /** The part of a reader message that marks an unknown visitor address rather than a broken database. */
  const NotInDatabase: string := "is not in the database"

  /** `file_exists($path)`; PHP reports false for the empty path. */
  predicate FileExists(existingFiles: set<string>, path: string) {
    path != "" && path in existingFiles
  }

  /** The reader check is accepted: the database opened, or only the address was unknown. */
  predicate Accepted(check: ReaderCheck) {
    check.Opens? || Contains(check.message, NotInDatabase)
  }

  /**
   `validateForm()` for the typed path `typed` and the uploaded file ids
   `uploaded` (`fileUri` gives a loaded file's URI). Without an existing path
   and without an upload the form fails at once; otherwise the first upload,
   if any, replaces the typed path, the reader is tried on that path, and its
   exception becomes the error unless it only says the address is unknown.
   */
  function ValidateForm(typed: string, uploaded: seq<nat>, fileUri: nat -> string,
                        existingFiles: set<string>, check: string -> ReaderCheck): (v: Validation)
    // The early stop: exactly when nothing is available, with its own error and no reader check.
    ensures (v.error == Some(NoGeoDbAvailable)) <==> (!FileExists(existingFiles, typed) && |uploaded| == 0)
    ensures v.checkedPath.None? <==> (!FileExists(existingFiles, typed) && |uploaded| == 0)
    // The upload replaces the typed path, both for the reader and as the new `geodb` value.
    ensures |uploaded| > 0 ==> v.checkedPath == Some(fileUri(uploaded[0])) && v.geodb == fileUri(uploaded[0])
    ensures |uploaded| == 0 ==> v.geodb == typed
    ensures |uploaded| == 0 && FileExists(existingFiles, typed) ==> v.checkedPath == Some(typed)
    // Past the early stop, there is no error exactly when the reader check is accepted ...
    ensures v.checkedPath.Some? ==> (v.error.None? <==> Accepted(check(v.checkedPath.value)))
    // ... and any error is the reader's own message.
    ensures v.checkedPath.Some? && v.error.Some? ==>
              check(v.checkedPath.value) == Raises(v.error.value.message) && v.error.value.ReaderError?
  {
    if !FileExists(existingFiles, typed) && |uploaded| == 0 then
      Validation(Some(NoGeoDbAvailable), None, typed)
    else
      var path := if |uploaded| > 0 then fileUri(uploaded[0]) else typed;
      var error :=
        match check(path)
        case Opens => None
        case Raises(message) =>
          if !Contains(message, NotInDatabase) then Some(ReaderError(message)) else None;
      var geodb := if |uploaded| > 0 then path else typed;
      Validation(error, Some(path), geodb)
  }

  /**
   The uploaded URI becomes the `geodb` value even when the reader has just
   rejected it, although the code's comment says this happens only when
   validation is okay.
   */
  lemma UploadOverridesDespiteError(typed: string, uploaded: seq<nat>, fileUri: nat -> string,
                                    existingFiles: set<string>, check: string -> ReaderCheck)
    requires |uploaded| > 0 && !Accepted(check(fileUri(uploaded[0])))
    ensures var v := ValidateForm(typed, uploaded, fileUri, existingFiles, check);
            v.error == Some(ReaderError(check(fileUri(uploaded[0])).message))
            && v.geodb == fileUri(uploaded[0])
  {
  }

  /** A reader message naming an unknown address does not fail validation, whatever else it says. */
  lemma UnknownAddressIsAccepted(prefix: string, suffix: string)
    ensures Accepted(Raises(prefix + NotInDatabase + suffix))
  {
    var m := prefix + NotInDatabase + suffix;
    assert m[|prefix|..|prefix| + |NotInDatabase|] == NotInDatabase;
    assert OccursAt(m, NotInDatabase, |prefix|);
  }
}
