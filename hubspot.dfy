/**
 * The HubSpot client helpers: contact lookup by id and by email, sequential file upload,
 * and note creation. The remote service is a `HubSpotApi` object that records every request
 * it receives and answers each from a fixed reply function of the request and its position
 * in the record.
 */
module HubSpot {
  import opened Wrappers

  /** An HTTP failure; `status` is absent when no response arrived. */
  datatype HttpError = HttpError(status: Option<int>, message: string)

  /** A CRM contact: its id, its `properties` object (a value may be null), and a top-level `email`. */
  datatype Contact = Contact(id: string, properties: Option<map<string, Option<string>>>, email: Option<string>)

  /** A file as multer keeps it in memory. */
  datatype UploadedFile = UploadedFile(fieldname: string, originalname: string, mimetype: string, size: nat, buffer: seq<bv8>)

  datatype Attachment = Attachment(id: string)

  /** The engagement body of a note; its `timestamp` is left out. */
  datatype NotePayload = NotePayload(active: bool, kind: string, contactIds: seq<string>, body: string, attachments: seq<Attachment>)

  /** The engagement HubSpot returns for a created note. */
  datatype Note = Note(id: string)

  datatype Request =
    | GetContact(id: string, properties: seq<string>)
    | SearchContacts(email: string, properties: seq<string>, limit: nat)
    | PostFile(file: UploadedFile)
    | PostEngagement(payload: NotePayload)

  /** How the service answers each kind of request, given the request's position in the record. */
  datatype Replies = Replies(
    contact: (nat, string) -> Result<Contact, HttpError>,
    search: (nat, string) -> Result<seq<Contact>, HttpError>,
    file: (nat, UploadedFile) -> Result<string, HttpError>,
    note: (nat, NotePayload) -> Result<Note, HttpError>)

  // ---------------------------------------------------------------- getContactById / searchContactByEmail

  /** The error `getContactById` throws for a failed lookup. */
  function ContactLookupError(e: HttpError): (r: HttpError)
    ensures r.status == Some(404) <==> e.status == Some(404)
    ensures e.status == Some(404) ==> r.message == "Contact not found"
    ensures e.status != Some(404) ==> r == e
  {
    if e.status == Some(404) then HttpError(Some(404), "Contact not found") else e
  }

  /** `data.results?.[0] || null` */
  function FirstResult(results: seq<Contact>): (r: Option<Contact>)
    ensures r.None? <==> results == []
    ensures r.Some? ==> r.value == results[0]
  {
    if results == [] then None else Some(results[0])
  }

  // ---------------------------------------------------------------- uploadFiles

  /** The position of the first file whose upload fails, or `|files|` when none does. */
  function FirstFailure(reply: (nat, UploadedFile) -> Result<string, HttpError>, start: nat, files: seq<UploadedFile>): (k: nat)
    ensures k <= |files|
    ensures forall j | 0 <= j < k :: reply(start + j, files[j]).Success?
    ensures k < |files| ==> reply(start + k, files[k]).Failure?
    decreases |files|
  {
    if files == [] then 0
    else if reply(start, files[0]).Failure? then 0
    else 1 + FirstFailure(reply, start + 1, files[1..])
  }

  /** What `uploadFiles` returns when its first request is the `start`-th one the service receives. */
  function UploadResult(reply: (nat, UploadedFile) -> Result<string, HttpError>, start: nat, files: seq<UploadedFile>): (r: Result<seq<string>, HttpError>)
    ensures r.Success? <==> forall j | 0 <= j < |files| :: reply(start + j, files[j]).Success?
    ensures r.Success? ==> |r.value| == |files| && forall j | 0 <= j < |files| :: reply(start + j, files[j]) == Success(r.value[j])
    ensures r.Failure? ==> reply(start + FirstFailure(reply, start, files), files[FirstFailure(reply, start, files)]) == Failure(r.error)
  {
    var k := FirstFailure(reply, start, files);
    if k < |files| then Failure(reply(start + k, files[k]).error)
    else Success(seq(|files|, j requires 0 <= j < |files| => reply(start + j, files[j]).value))
  }

  /** How many files `uploadFiles` sends: all of them, or up to and including the first that fails. */
  function UploadsMade(reply: (nat, UploadedFile) -> Result<string, HttpError>, start: nat, files: seq<UploadedFile>): (n: nat)
    ensures n <= |files|
    ensures UploadResult(reply, start, files).Success? ==> n == |files|
    ensures UploadResult(reply, start, files).Failure? ==> n == FirstFailure(reply, start, files) + 1
  {
    var k := FirstFailure(reply, start, files);
    if k < |files| then k + 1 else k
  }

  function PostsOf(files: seq<UploadedFile>): (rs: seq<Request>)
    ensures |rs| == |files|
  {
    seq(|files|, j requires 0 <= j < |files| => PostFile(files[j]))
  }

  /** One more file sent: its request follows those of the files before it. */
  lemma PostsOfExtend(files: seq<UploadedFile>, i: nat)
    requires i < |files|
    ensures PostsOf(files[..i + 1]) == PostsOf(files[..i]) + [PostFile(files[i])]
  {
    assert files[..i + 1] == files[..i] + [files[i]];
  }

  /** Every upload succeeded, with the ids collected: the loop's result is the ids, and every file was sent. */
  lemma UploadsAllSucceed(reply: (nat, UploadedFile) -> Result<string, HttpError>, start: nat, files: seq<UploadedFile>, ids: seq<string>)
    requires |ids| == |files|
    requires forall j | 0 <= j < |files| :: reply(start + j, files[j]) == Success(ids[j])
    ensures UploadResult(reply, start, files) == Success(ids)
    ensures UploadsMade(reply, start, files) == |files|
  {
    assert FirstFailure(reply, start, files) == |files|;
    assert ids == seq(|files|, j requires 0 <= j < |files| => reply(start + j, files[j]).value);
  }

  /** The upload of file `i` is the first to fail: the loop throws its error, having sent files `0 .. i`. */
  lemma UploadStopsAt(reply: (nat, UploadedFile) -> Result<string, HttpError>, start: nat, files: seq<UploadedFile>, i: nat)
    requires i < |files|
    requires forall j | 0 <= j < i :: reply(start + j, files[j]).Success?
    requires reply(start + i, files[i]).Failure?
    ensures UploadResult(reply, start, files) == Failure(reply(start + i, files[i]).error)
    ensures UploadsMade(reply, start, files) == i + 1
  {
    assert FirstFailure(reply, start, files) == i;
  }

  // ---------------------------------------------------------------- createNoteWithAttachments

  /** The engagement `createNoteWithAttachments` posts; absent ids default to none. */
  function NotePayloadFor(contactId: string, attachmentIds: Option<seq<string>>): (p: NotePayload)
    ensures p.active && p.kind == "NOTE" && p.body == "Please find the attached documents."
    ensures p.contactIds == [contactId]
    ensures attachmentIds.None? ==> p.attachments == []
    ensures attachmentIds.Some? ==>
              (|p.attachments| == |attachmentIds.value| &&
               forall k | 0 <= k < |p.attachments| :: p.attachments[k].id == attachmentIds.value[k])
  {
    var ids := if attachmentIds.Some? then attachmentIds.value else [];
    NotePayload(true, "NOTE", [contactId], "Please find the attached documents.",
                seq(|ids|, k requires 0 <= k < |ids| => Attachment(ids[k])))
  }

  // ---------------------------------------------------------------- the service

  class HubSpotApi {
    /** Every request received so far, in order. */
    var log: seq<Request>
    const replies: Replies

    constructor (replies: Replies)
      ensures this.replies == replies && log == []
    {
      this.replies := replies;
      log := [];
    }

    /** `getContactById`: a 404 becomes "Contact not found"; any other error is rethrown as is. */
    method GetContactById(id: string, properties: seq<string>) returns (r: Result<Contact, HttpError>)
      modifies this
      ensures log == old(log) + [GetContact(id, properties)]
      ensures var reply := replies.contact(|old(log)|, id);
              r == if reply.Success? then reply else Failure(ContactLookupError(reply.error))
    {
      var reply := replies.contact(|log|, id);
      log := log + [GetContact(id, properties)];
      match reply {
        case Success(data) => r := Success(data);
        case Failure(err) =>
          if err.status == Some(404) {
            r := Failure(HttpError(Some(404), "Contact not found"));
          } else {
            r := Failure(err);
          }
      }
    }

    /** `searchContactByEmail`: the first match, or none; a failed request is thrown. */
    method SearchContactByEmail(email: string, properties: seq<string>) returns (r: Result<Option<Contact>, HttpError>)
      modifies this
      ensures log == old(log) + [SearchContacts(email, properties, 1)]
      ensures var reply := replies.search(|old(log)|, email);
              r == if reply.Success? then Success(FirstResult(reply.value)) else Failure(reply.error)
    {
      var reply := replies.search(|log|, email);
      log := log + [SearchContacts(email, properties, 1)];
      if reply.Failure? {
        return Failure(reply.error);
      }
      r := Success(FirstResult(reply.value));
    }

    /**
     * `uploadFiles`: one request per file, in order, collecting the returned ids; the first
     * failure is thrown, so no later file is sent and no id list is returned.
     */
    method UploadFiles(files: seq<UploadedFile>) returns (r: Result<seq<string>, HttpError>)
      modifies this
      ensures r == UploadResult(replies.file, |old(log)|, files)
      ensures log == old(log) + PostsOf(files[..UploadsMade(replies.file, |old(log)|, files)])
    {
      ghost var start := |log|;
      var ids: seq<string> := [];
      for i := 0 to |files|
        invariant |log| == start + i
        invariant log == old(log) + PostsOf(files[..i])
        invariant |ids| == i
        invariant forall j | 0 <= j < i :: replies.file(start + j, files[j]) == Success(ids[j])
      {
        var reply := replies.file(|log|, files[i]);
        PostsOfExtend(files, i);
        log := log + [PostFile(files[i])];
        if reply.Failure? {
          UploadStopsAt(replies.file, start, files, i);
          return Failure(reply.error);
        }
        ids := ids + [reply.value];
      }
      UploadsAllSucceed(replies.file, start, files, ids);
      assert files[..|files|] == files;
      r := Success(ids);
    }

    /** `createNoteWithAttachments`: posts one engagement and returns what the service answers. */
    method CreateNoteWithAttachments(contactId: string, attachmentIds: Option<seq<string>>) returns (r: Result<Note, HttpError>)
      modifies this
      ensures log == old(log) + [PostEngagement(NotePayloadFor(contactId, attachmentIds))]
      ensures r == replies.note(|old(log)|, NotePayloadFor(contactId, attachmentIds))
    {
      var payload := NotePayloadFor(contactId, attachmentIds);
      r := replies.note(|log|, payload);
      log := log + [PostEngagement(payload)];
    }
  }
}
