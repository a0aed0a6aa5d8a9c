/**
 * The document-upload handler: after the multipart body is parsed, check the contact id,
 * take the first file of each of the slots `document1` .. `document5` in slot order, upload
 * them, and attach the uploads to a new note on the contact.
 */
module Documents {
  import opened Wrappers
  import opened HubSpot

  /** The number of document slots the upload form offers. */
  const SlotCount: nat := 5

  /** The form field of slot `i`: `document1` .. `document5`. */
  function DocumentField(i: nat): string
    requires 1 <= i <= SlotCount
  {
    "document" + [('0' as int + i) as char]
  }

  /** Slot `i`'s field is `document` followed by the digit of `i`, so distinct slots have distinct fields. */
  lemma DocumentFieldName(i: nat, j: nat)
    requires 1 <= i <= SlotCount && 1 <= j <= SlotCount
    ensures |DocumentField(i)| == 9 && DocumentField(i)[..8] == "document" && DocumentField(i)[8] == ('0' as int + i) as char
    ensures DocumentField(i) == DocumentField(j) <==> i == j
  {
    if DocumentField(i) == DocumentField(j) {
      assert DocumentField(i)[8] == DocumentField(j)[8];
    }
  }

  /** The files multer parsed for slot `i`'s field; a field that was not sent has none. */
  function SlotFiles(files: map<string, seq<UploadedFile>>, i: nat): seq<UploadedFile>
    requires 1 <= i <= SlotCount
  {
    if DocumentField(i) in files then files[DocumentField(i)] else []
  }

  /** The contents of the five slots, slot `i` at position `i - 1`. */
  function Slots(files: map<string, seq<UploadedFile>>): (slots: seq<seq<UploadedFile>>)
    ensures |slots| == SlotCount
    ensures forall i | 1 <= i <= SlotCount :: slots[i - 1] == SlotFiles(files, i)
  {
    seq(SlotCount, k requires 0 <= k < SlotCount => SlotFiles(files, k + 1))
  }

  // The selection, over the slot contents. Slots are numbered from 1, as the fields are.

  /** Slot `i` holds at least one file (`arr && arr[0]`). */
  predicate Filled(slots: seq<seq<UploadedFile>>, i: nat)
    requires 1 <= i <= |slots|
  {
    |slots[i - 1]| > 0
  }

  /** The files the collection loop has pushed once it has looked at slots `1 .. n`. */
  function Collected(slots: seq<seq<UploadedFile>>, n: nat): (r: seq<UploadedFile>)
    requires n <= |slots|
    ensures |r| <= n
  {
    if n == 0 then []
    else Collected(slots, n - 1) + (if Filled(slots, n) then [slots[n - 1][0]] else [])
  }

  /** The filled slots among `1 .. n`, in increasing order. */
  function FilledSlots(slots: seq<seq<UploadedFile>>, n: nat): (filled: seq<nat>)
    requires n <= |slots|
    ensures |filled| <= n
    ensures forall k | 0 <= k < |filled| :: 1 <= filled[k] <= n && |slots[filled[k] - 1]| > 0
  {
    if n == 0 then []
    else FilledSlots(slots, n - 1) + (if Filled(slots, n) then [n] else [])
  }

  /** The filled slots are listed in strictly increasing order. */
  lemma {:induction false} FilledSlotsIncreasing(slots: seq<seq<UploadedFile>>, n: nat)
    requires n <= |slots|
    ensures forall k, l | 0 <= k < l < |FilledSlots(slots, n)| :: FilledSlots(slots, n)[k] < FilledSlots(slots, n)[l]
  {
    if n > 0 {
      FilledSlotsIncreasing(slots, n - 1);
      var before := FilledSlots(slots, n - 1);
      if Filled(slots, n) {
        var filled := before + [n];
        assert FilledSlots(slots, n) == filled;
        forall k, l | 0 <= k < l < |filled|
          ensures filled[k] < filled[l]
        {
          assert filled[k] == before[k] <= n - 1;
          if l < |before| {
            assert filled[l] == before[l];
            assert before[k] < before[l];
          }
        }
      } else {
        assert FilledSlots(slots, n) == before + [] == before;
      }
    }
  }

  /** No filled slot is left out. */
  lemma {:induction false} FilledSlotsComplete(slots: seq<seq<UploadedFile>>, n: nat)
    requires n <= |slots|
    ensures forall i | 1 <= i <= n && Filled(slots, i) :: i in FilledSlots(slots, n)
  {
    if n > 0 {
      FilledSlotsComplete(slots, n - 1);
    }
  }

  /** The first file of each listed slot, in the order of the list. */
  function FirstFiles(slots: seq<seq<UploadedFile>>, filled: seq<nat>): (r: seq<UploadedFile>)
    requires forall k | 0 <= k < |filled| :: 1 <= filled[k] <= |slots| && |slots[filled[k] - 1]| > 0
  {
    seq(|filled|, k requires 0 <= k < |filled| => slots[filled[k] - 1][0])
  }

  /** Listing one more filled slot appends its first file. */
  lemma FirstFilesSnoc(slots: seq<seq<UploadedFile>>, filled: seq<nat>, i: nat)
    requires forall k | 0 <= k < |filled| :: 1 <= filled[k] <= |slots| && |slots[filled[k] - 1]| > 0
    requires 1 <= i <= |slots| && |slots[i - 1]| > 0
    ensures FirstFiles(slots, filled + [i]) == FirstFiles(slots, filled) + [slots[i - 1][0]]
  {
  }

  /** The loop's selection after slot `n` is the first file of each filled slot so far, in slot order. */
  lemma {:induction false} CollectedInSlotOrder(slots: seq<seq<UploadedFile>>, n: nat)
    requires n <= |slots|
    ensures Collected(slots, n) == FirstFiles(slots, FilledSlots(slots, n))
  {
    if n > 0 {
      CollectedInSlotOrder(slots, n - 1);
      var before := FilledSlots(slots, n - 1);
      if Filled(slots, n) {
        assert FilledSlots(slots, n) == before + [n];
        FirstFilesSnoc(slots, before, n);
      } else {
        assert FilledSlots(slots, n) == before + [] == before;
      }
    }
  }

  /** The files the handler uploads: at most one per slot. */
  function SelectedDocuments(files: map<string, seq<UploadedFile>>): (selected: seq<UploadedFile>)
    ensures |selected| <= SlotCount
  {
    Collected(Slots(files), SlotCount)
  }

  /**
   * The selection lists the first file of each filled slot: one file per filled slot, slots in
   * increasing order, each file the first of its slot's files.
   */
  lemma SelectionInSlotOrder(files: map<string, seq<UploadedFile>>)
    ensures |SelectedDocuments(files)| == |FilledSlots(Slots(files), SlotCount)|
    ensures forall k, l | 0 <= k < l < |FilledSlots(Slots(files), SlotCount)| ::
              FilledSlots(Slots(files), SlotCount)[k] < FilledSlots(Slots(files), SlotCount)[l]
    ensures forall k | 0 <= k < |FilledSlots(Slots(files), SlotCount)| ::
              var i := FilledSlots(Slots(files), SlotCount)[k];
              1 <= i <= SlotCount && SlotFiles(files, i) != [] && SelectedDocuments(files)[k] == SlotFiles(files, i)[0]
  {
    var slots := Slots(files);
    var filled := FilledSlots(slots, SlotCount);
    CollectedInSlotOrder(slots, SlotCount);
    FilledSlotsIncreasing(slots, SlotCount);
    forall k | 0 <= k < |filled|
      ensures 1 <= filled[k] <= SlotCount && SlotFiles(files, filled[k]) != []
      ensures SelectedDocuments(files)[k] == SlotFiles(files, filled[k])[0]
    {
      assert slots[filled[k] - 1] == SlotFiles(files, filled[k]);
    }
  }

  /**
   * At most one file per slot is taken, empty or missing slots are skipped, and the
   * selection is empty exactly when no slot holds a file.
   */
  lemma SelectionBounds(files: map<string, seq<UploadedFile>>)
    ensures |SelectedDocuments(files)| <= SlotCount
    ensures SelectedDocuments(files) == [] <==> forall i | 1 <= i <= SlotCount :: SlotFiles(files, i) == []
  {
    var slots := Slots(files);
    var filled := FilledSlots(slots, SlotCount);
    CollectedInSlotOrder(slots, SlotCount);
    FilledSlotsComplete(slots, SlotCount);
    assert |SelectedDocuments(files)| == |filled|;
    if filled == [] {
      forall i | 1 <= i <= SlotCount
        ensures SlotFiles(files, i) == []
      {
        assert i !in filled;
      }
    } else {
      assert Filled(slots, filled[0]);
    }
  }

  /** The collection loop of `handleDocumentUpload`. */
  method CollectDocuments(files: map<string, seq<UploadedFile>>) returns (selected: seq<UploadedFile>)
    ensures selected == SelectedDocuments(files)
  {
    selected := [];
    for i := 1 to SlotCount + 1
      invariant selected == Collected(Slots(files), i - 1)
    {
      var field := DocumentField(i);
      assert Slots(files)[i - 1] == SlotFiles(files, i);
      if field in files && |files[field]| > 0 {
        selected := selected + [files[field][0]];
      }
    }
  }

  datatype UploadResponse =
    | BadRequest(error: string)             // 400 with a JSON error
    | Uploaded(message: string, note: Note) // 200 with the created note
    | Failed(cause: HttpError)              // passed on to the error handler
    | Threw(error: string)                  // a TypeError, passed on to the error handler

  const UploadedMessage := "Files uploaded, note created, and attachments associated"

  const FilesUndefinedError := "TypeError: Cannot read properties of undefined (reading 'document1')"

  /**
   * `handleDocumentUpload`, for the body's `contactId` and `req.files`: the files multer parsed,
   * keyed by field, or `None` when the request was not multipart and multer left it unset.
   */
  method HandleDocumentUpload(api: HubSpotApi, contactId: Option<string>, files: Option<map<string, seq<UploadedFile>>>)
    returns (resp: UploadResponse)
    modifies api
    // Guards, in order; none sends anything.
    ensures !Present(contactId) ==> resp == BadRequest("Missing contactId") && api.log == old(api.log)
    ensures Present(contactId) && files.None? ==> resp == Threw(FilesUndefinedError) && api.log == old(api.log)
    ensures Present(contactId) && files.Some? && SelectedDocuments(files.value) == [] ==>
              resp == BadRequest("No files uploaded") && api.log == old(api.log)
    // An upload failure ends the request before any note is created.
    ensures Present(contactId) && files.Some? && SelectedDocuments(files.value) != [] &&
            UploadResult(api.replies.file, |old(api.log)|, SelectedDocuments(files.value)).Failure? ==>
              var selected := SelectedDocuments(files.value);
              var start := |old(api.log)|;
              resp == Failed(UploadResult(api.replies.file, start, selected).error) &&
              api.log == old(api.log) + PostsOf(selected[..UploadsMade(api.replies.file, start, selected)])
    // Otherwise every selected file is sent, then one note carrying exactly the returned ids.
    ensures Present(contactId) && files.Some? && SelectedDocuments(files.value) != [] &&
            UploadResult(api.replies.file, |old(api.log)|, SelectedDocuments(files.value)).Success? ==>
              var selected := SelectedDocuments(files.value);
              var start := |old(api.log)|;
              var payload := NotePayloadFor(contactId.value, Some(UploadResult(api.replies.file, start, selected).value));
              var reply := api.replies.note(start + |selected|, payload);
              api.log == old(api.log) + PostsOf(selected) + [PostEngagement(payload)] &&
              resp == if reply.Success? then Uploaded(UploadedMessage, reply.value) else Failed(reply.error)
  {
    if !Present(contactId) {
      return BadRequest("Missing contactId");
    }
    if files.None? {
      return Threw(FilesUndefinedError);
    }
    var selected := CollectDocuments(files.value);
    if selected == [] {
      return BadRequest("No files uploaded");
    }
    var uploaded := api.UploadFiles(selected);
    if uploaded.Failure? {
      return Failed(uploaded.error);
    }
    assert selected[..|selected|] == selected;
    var note := api.CreateNoteWithAttachments(contactId.value, Some(uploaded.value));
    if note.Failure? {
      return Failed(note.error);
    }
    resp := Uploaded(UploadedMessage, note.value);
  }
}
