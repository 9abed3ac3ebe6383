/**
 The directive's file service: the configuration set at initialisation and
 the single slot holding the transfer currently dragged over the element.
 The file service's own validation and file lookup are not part of this
 model; they enter as the uninterpreted queries of `Queries`.
 */
module FileStates {
  import Values
  import opened Dom

  /** The two directive inputs, each possibly left unset. */
  datatype Config = Config(
    supportedFileTypes: Values.Option<seq<string>>,
    maximumSizeBytes: Values.Option<int>)

  /** Why a dropped file was refused; `None` means it was accepted. */
  datatype RejectionReasons = None | UnsupportedType | ExceedsMaxSize

  /** The whole mutable state of the directive. */
  datatype FileState = FileState(config: Config, currentFile: TransferValue) {

    /** No drag is being tracked. */
    predicate Idle() {
      currentFile == Null
    }

    /** A drag is being tracked: the slot holds anything but `null`. */
    predicate Hovering() {
      !Idle()
    }
  }

  /**
   The file service's queries, which read the configuration and the current
   slot: `getFileData` yields the dropped file, `isFileValid` the verdict.
   */
  datatype Queries = Queries(
    getFileData: FileState -> FileRef,
    isFileValid: FileState -> RejectionReasons)

  /** Initialisation: store the inputs; no drag is tracked yet. */
  function Init(supportedFileTypes: Values.Option<seq<string>>, maximumSizeBytes: Values.Option<int>): (fs: FileState)
    ensures fs.Idle()
    ensures fs.config.supportedFileTypes == supportedFileTypes
    ensures fs.config.maximumSizeBytes == maximumSizeBytes
  {
    FileState(Config(supportedFileTypes, maximumSizeBytes), Null)
  }
}
