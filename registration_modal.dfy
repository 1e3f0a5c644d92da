// The registration dialog's checks (src/components/RegistrationModal.tsx:22-56):
// which payment-proof file it keeps, which message it shows, and whether a
// submit goes on to the upload.

module RegistrationModal {
  import opened Util

  /** The browser's `File` as far as the checks read it. */
  datatype FileInfo = FileInfo(name: string, mimeType: string, size: nat)

  /** The `file` and `error` states of the dialog. */
  datatype ModalState = ModalState(file: Option<FileInfo>, error: string)

  const InitialModal: ModalState := ModalState(None, "")

  const ValidTypes: seq<string> := ["image/jpeg", "image/png", "application/pdf"]
  const MaxSize: nat := 5 * 1024 * 1024
  const TypeError: string := "Only JPG, PNG, and PDF files are allowed"
  const SizeError: string := "File size must be less than 5MB"
  const MissingProof: string := "Please upload payment proof"

  /** A file the dialog keeps. */
  predicate Acceptable(f: FileInfo)
  {
    f.mimeType in ValidTypes && f.size <= MaxSize
  }

  /**
   * handleFileChange: no file leaves everything as it was (the error is not
   * even cleared); otherwise the error is cleared, the type is checked, then
   * the size, and only a file passing both replaces the kept one.
   */
  function HandleFileChange(st: ModalState, selected: Option<FileInfo>): (r: ModalState)
  {
    if selected.None? then st
    else
      var f := selected.value;
      if f.mimeType !in ValidTypes then ModalState(st.file, TypeError)
      else if f.size > MaxSize then ModalState(st.file, SizeError)
      else ModalState(Some(f), "")
  }

  /**
   * The outcome of choosing a file: it is kept, with no message, exactly
   * when it is acceptable; a wrong type reports the type error whatever the
   * size; a rejected file leaves the previously kept one in place.
   */
  lemma FileChangeOutcome(st: ModalState, f: FileInfo)
    ensures var r := HandleFileChange(st, Some(f));
      && (Acceptable(f) <==> r == ModalState(Some(f), ""))
      && (f.mimeType !in ValidTypes ==> r.error == TypeError)
      && (f.mimeType in ValidTypes && f.size > MaxSize ==> r.error == SizeError)
      && (!Acceptable(f) ==> r.file == st.file && r.error != "")
    ensures HandleFileChange(st, None) == st
  {
  }

  /** The size limit is inclusive: exactly 5 MiB is kept, one byte more is refused. */
  lemma SizeBoundary(name: string)
    ensures HandleFileChange(InitialModal, Some(FileInfo(name, "application/pdf", 5242880))).file.Some?
    ensures HandleFileChange(InitialModal, Some(FileInfo(name, "application/pdf", 5242881))) ==
            ModalState(None, SizeError)
  {
  }

  /** The dialog only ever holds an acceptable file. */
  predicate HeldFileAcceptable(st: ModalState)
  {
    st.file.Some? ==> Acceptable(st.file.value)
  }

  /** What handleSubmit does before the upload: the new state, and the file it goes on to upload, if any. */
  datatype SubmitStep = SubmitStep(state: ModalState, upload: Option<FileInfo>)

  /** handleSubmit up to the upload: the error is cleared, and a missing file stops it with a message. */
  function HandleSubmit(st: ModalState): (r: SubmitStep)
  {
    if st.file.None? then SubmitStep(ModalState(st.file, MissingProof), None)
    else SubmitStep(ModalState(st.file, ""), st.file)
  }

  /**
   * Without a file the submit shows 'Please upload payment proof' and never
   * reaches the upload or onSubmit; with one it uploads exactly that file.
   */
  lemma SubmitOutcome(st: ModalState)
    ensures var r := HandleSubmit(st);
      && (r.upload.None? <==> st.file.None?)
      && (st.file.None? ==> r.state.error == MissingProof)
      && (st.file.Some? ==> r.upload == st.file && r.state.error == "")
      && r.state.file == st.file
  {
  }

  /**
   * Both handlers keep the dialog holding only acceptable files, so every
   * uploaded proof has one of the three accepted types and at most 5 MiB.
   */
  lemma HandlersKeepFileAcceptable(st: ModalState, selected: Option<FileInfo>)
    requires HeldFileAcceptable(st)
    ensures HeldFileAcceptable(HandleFileChange(st, selected))
    ensures HeldFileAcceptable(HandleSubmit(st).state)
    ensures HandleSubmit(st).upload.Some? ==> Acceptable(HandleSubmit(st).upload.value)
  {
  }
}
