/** The messages exchanged between the cleaning worker and the user
    interface: events flow from the worker, responses flow back. */
module Events {
  import opened Wrappers
  import opened Names

  /** What the user can answer to a failed filesystem operation. */
  datatype RetrySkipAbortChoice = Retry | Skip | Abort

  /** The progress messages the cleaning walk reports, by kind, with the
      values they interpolate; `Text` renders each one. */
  datatype Status =
    | Scanning
    | ScanFailed(error: string)
    | Found(count: nat)
    | DeletingFile(path: string)
    | UnreadableSkipped(path: string)
    | SkippingDisplay(dirName: string)
    | DeletingDisplay(dirName: string)
    | StoppingWalk
    | RemovingDirectory(path: string)

  /** The message text of a status update. */
  function Text(s: Status): string {
    match s
    case Scanning => "Scanning all items in target directory..."
    case ScanFailed(error) => "Fatal error scanning directory: " + error
    case Found(count) => "Found " + NatToString(count) + " items. Deleting specified file types..."
    case DeletingFile(path) => "Deleting file: " + path
    case UnreadableSkipped(path) => "Permission error reading " + path + ". Skipping."
    case SkippingDisplay(dirName) => "Skipping deletion of display files in " + dirName + "."
    case DeletingDisplay(dirName) => "Deleting display files in " + dirName + "..."
    case StoppingWalk => "Stopping empty directory deletion walk at target directory."
    case RemovingDirectory(path) => "Removing empty directory: " + path
  }

  /** The operations a Retry/Skip/Abort request can be about, with the name
      of the entry; `Describe` renders the description the dialog shows. */
  datatype Operation = DeletingFileNamed(name: string) | RemovingDirectoryNamed(name: string)

  function Describe(op: Operation): string {
    match op
    case DeletingFileNamed(name) => "deleting file '" + name + "'"
    case RemovingDirectoryNamed(name) => "removing directory '" + name + "'"
  }

  datatype Event =
    | StatusUpdate(status: Status)
      /** The worker pauses until a `UserConfirmationResponse` comes back. */
    | RequestConfirmation(path: string, filesInDir: seq<string>)
      /** The worker pauses until a `RetrySkipAbortResponse` comes back. */
    | RequestRetrySkipAbort(operation: Operation, path: string, errorMessage: string)
    | CleaningResult(deletedFilesCount: nat, targetDir: string)
    | ErrorOccurred(message: string, traceback: Option<string>)

  datatype Response =
    | UserConfirmationResponse(accepted: bool)
    | RetrySkipAbortResponse(choice: RetrySkipAbortChoice)

  /** `ErrorOccurred(message=...)` with the traceback left at its default. */
  function Error(message: string): (e: Event)
    ensures e.ErrorOccurred? && e.message == message && e.traceback.None?
  {
    ErrorOccurred(message, None)
  }

  /** The events after which the worker waits for a response. */
  predicate IsRequest(e: Event) {
    e.RequestConfirmation? || e.RequestRetrySkipAbort?
  }

  /** The events that end a run. */
  predicate IsTerminal(e: Event) {
    e.CleaningResult? || e.ErrorOccurred?
  }
}
