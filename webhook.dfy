/**
 * The webhook that issues a portal link: find the contact by id, falling back to a search
 * by email when the id is absent or unknown, and answer with the contact and its link.
 */
module Webhook {
  import opened Wrappers
  import opened HubSpot
  import opened Portal

  datatype WebhookResponse =
    | NotFound(error: string)                                                 // 404 with a JSON error
    | LinkIssued(contactId: string, email: Option<string>, portalLink: string) // 200 with the contact and link
    | Failed(cause: HttpError)                                                // passed on to the error handler

  /** The answer once the lookups are over: the found contact's id, the request's own email, the link. */
  function Respond(found: Option<Contact>, email: Option<string>, portalBaseUrl: Option<string>, json: JsonCodec): (r: WebhookResponse)
    ensures found.None? <==> r == NotFound("Contact not found in HubSpot")
    ensures found.Some? ==> r.LinkIssued? && r.contactId == found.value.id && r.email == email
    ensures found.Some? ==> r.portalLink == BuildPortalLink(found.value, portalBaseUrl, json)
  {
    match found
    case None => NotFound("Contact not found in HubSpot")
    case Some(c) => LinkIssued(c.id, email, BuildPortalLink(c, portalBaseUrl, json))
  }

  /** The answer after a search by email: its failure, not found for no result, or the link for the first result. */
  function SearchResponse(reply: Result<seq<Contact>, HttpError>, email: Option<string>, portalBaseUrl: Option<string>, json: JsonCodec): (r: WebhookResponse)
    ensures reply.Failure? ==> r == Failed(reply.error)
    ensures reply.Success? ==> (r == NotFound("Contact not found in HubSpot") <==> reply.value == [])
    ensures reply.Success? && reply.value != [] ==>
              r == LinkIssued(reply.value[0].id, email, BuildPortalLink(reply.value[0], portalBaseUrl, json))
  {
    match reply
    case Failure(e) => Failed(e)
    case Success(results) => Respond(FirstResult(results), email, portalBaseUrl, json)
  }

  /** `handleWebhook`, for the request body's `contact_id` and `email`. */
  method HandleWebhook(api: HubSpotApi, contactId: Option<string>, email: Option<string>, portalBaseUrl: Option<string>, json: JsonCodec)
    returns (resp: WebhookResponse)
    modifies api
    // Found by id: no search is made.
    ensures Present(contactId) && api.replies.contact(|old(api.log)|, contactId.value).Success? ==>
              api.log == old(api.log) + [GetContact(contactId.value, ["email"])] &&
              resp == Respond(Some(api.replies.contact(|old(api.log)|, contactId.value).value), email, portalBaseUrl, json)
    // The id lookup fails other than with 404: the error propagates and no search is made.
    ensures Present(contactId) && api.replies.contact(|old(api.log)|, contactId.value).Failure? &&
            api.replies.contact(|old(api.log)|, contactId.value).error.status != Some(404) ==>
              api.log == old(api.log) + [GetContact(contactId.value, ["email"])] &&
              resp == Failed(api.replies.contact(|old(api.log)|, contactId.value).error)
    // The id is unknown: fall back to the email, if there is one.
    ensures Present(contactId) && api.replies.contact(|old(api.log)|, contactId.value).Failure? &&
            api.replies.contact(|old(api.log)|, contactId.value).error.status == Some(404) ==>
              if Present(email) then
                api.log == old(api.log) + [GetContact(contactId.value, ["email"]), SearchContacts(email.value, ["email"], 1)] &&
                resp == SearchResponse(api.replies.search(|old(api.log)| + 1, email.value), email, portalBaseUrl, json)
              else
                api.log == old(api.log) + [GetContact(contactId.value, ["email"])] &&
                resp == NotFound("Contact not found in HubSpot")
    // No id: only the email search is tried.
    ensures !Present(contactId) ==>
              if Present(email) then
                api.log == old(api.log) + [SearchContacts(email.value, ["email"], 1)] &&
                resp == SearchResponse(api.replies.search(|old(api.log)|, email.value), email, portalBaseUrl, json)
              else
                api.log == old(api.log) && resp == NotFound("Contact not found in HubSpot")
  {
    var contact: Option<Contact> := None;
    if Present(contactId) {
      var byId := api.GetContactById(contactId.value, ["email"]);
      match byId {
        case Success(c) => contact := Some(c);
        case Failure(err) =>
          if err.status != Some(404) {
            return Failed(err);
          }
      }
    }
    if contact.None? && Present(email) {
      var byEmail := api.SearchContactByEmail(email.value, ["email"]);
      if byEmail.Failure? {
        return Failed(byEmail.error);
      }
      contact := byEmail.value;
    }
    resp := Respond(contact, email, portalBaseUrl, json);
  }
}
