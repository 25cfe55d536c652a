/** The action handlers of the Files view (src/components/Files.jsx): the
    folder upload and the cascading bucket delete. The storage and delete
    calls are not made here; each handler takes what those calls resolved to
    and yields the observable steps it takes. */
module Handlers {
  import opened Wrappers
  import opened FolderGrouper
  import opened FilesView

  /** A file picked through the directory input, with its path relative to
      the picked directory's parent (`webkitRelativePath`). */
  datatype PickedFile = PickedFile(relativePath: string)

  /** What one storage upload call resolved to. */
  datatype UploadOutcome = Uploaded | UploadFailed(error: string)

  /** One observable step of the upload handler: an upload attempt of a path
      and whether it succeeded, or the single listing refresh at the end. */
  datatype UploadEvent = Attempt(path: string, succeeded: bool) | Refresh

  /** `handleFolderUpload`: every picked file is uploaded under its relative
      path, one after another, and a failure is only logged, so it stops
      nothing; after the loop the listing is fetched once. `outcomes[i]` is
      what the upload of `files[i]` resolved to and `listing` what the final
      fetch resolved to. The uploads themselves write no view state: the new
      state is the refresh's. */
  method HandleFolderUpload(s: ViewState, files: seq<PickedFile>, outcomes: seq<UploadOutcome>,
                            listing: Result<seq<Entry>, string>)
    returns (trace: seq<UploadEvent>, s': ViewState)
    requires |outcomes| == |files|
    ensures |trace| == |files| + 1
    ensures forall i :: 0 <= i < |files| ==>
      trace[i] == Attempt(files[i].relativePath, outcomes[i].Uploaded?)
    ensures forall k :: 0 <= k < |trace| ==> (trace[k] == Refresh <==> k == |files|)
    ensures s' == FetchFiles(s, listing)
  {
    trace := [];
    var i := 0;
    while i < |files|
      invariant 0 <= i <= |files|
      invariant |trace| == i
      invariant forall j :: 0 <= j < i ==> trace[j] == Attempt(files[j].relativePath, outcomes[j].Uploaded?)
    {
      var ok := match outcomes[i]
        case Uploaded => true
        case UploadFailed(_) => false;
      trace := trace + [Attempt(files[i].relativePath, ok)];
      i := i + 1;
    }
    trace := trace + [Refresh];
    s' := FetchFiles(s, listing);
  }

  /** The user-visible effects of the delete handler. */
  datatype DeleteEffect = Alert(message: string) | Navigate(route: string)

  const DeleteFailedMessage: string := "error deleting files"
  const HomeRoute: string := "/Home"

  /** `handleDeleteBucket`: a failed cascade delete raises one alert and does
      not navigate; a successful one navigates home and raises no alert. */
  function HandleDeleteBucket(result: Result<(), string>): (effects: seq<DeleteEffect>)
    ensures |effects| == 1
    ensures result.Failure? <==> Alert(DeleteFailedMessage) in effects
    ensures result.Success? <==> Navigate(HomeRoute) in effects
    ensures forall e :: e in effects ==> e == Alert(DeleteFailedMessage) || e == Navigate(HomeRoute)
  {
    match result
    case Failure(_) => [Alert(DeleteFailedMessage)]
    case Success(_) => [Navigate(HomeRoute)]
  }
}
