/**
 * The portal link: a contact's id and email, serialised as JSON, Base64-encoded and
 * percent-encoded into the `data` query parameter of the upload page's address.
 */
module Portal {
  import opened Wrappers
  import opened Base64
  import opened PercentEncoding
  import opened HubSpot

  datatype PortalPayload = PortalPayload(id: string, email: Option<string>)

  /**
   * `JSON.stringify` followed by UTF-8 encoding, and UTF-8 decoding followed by `JSON.parse`
   * (`None` where the parse throws). Both are left abstract.
   */
  datatype JsonCodec = JsonCodec(serialize: PortalPayload -> seq<Byte>, parse: seq<Byte> -> Option<PortalPayload>)

  /** Parsing what was serialised gives back the payload. */
  ghost predicate RoundTrips(json: JsonCodec) {
    forall p :: json.parse(json.serialize(p)) == Some(p)
  }

  /** `encodePortalPayload`: ASCII text without a `%` that Base64-decodes to the serialised payload. */
  function EncodePortalPayload(p: PortalPayload, json: JsonCodec): (e: string)
    ensures Base64Decode(e) == Some(json.serialize(p))
    ensures forall k | 0 <= k < |e| :: IsAscii(e[k]) && e[k] != '%'
  {
    var bytes := json.serialize(p);
    Base64RoundTrip(bytes);
    NoPercentInBase64(bytes);
    Base64IsAscii(bytes);
    Base64Encode(bytes)
  }

  /**
   * `decodePortalPayload`: percent-decode, Base64-decode, parse. A payload comes only out of
   * a parameter that is well-formed on both layers.
   */
  function DecodePortalPayload(encoded: string, json: JsonCodec): (r: Option<PortalPayload>)
    ensures r.Some? ==> DecodeURIComponent(encoded).Some? && Base64Decode(DecodeURIComponent(encoded).value).Some?
  {
    match DecodeURIComponent(encoded)
    case None => None
    case Some(text) =>
      match Base64Decode(text)
      case None => None
      case Some(bytes) => json.parse(bytes)
  }

  lemma Base64IsAscii(b: seq<Byte>)
    ensures forall k | 0 <= k < |Base64Encode(b)| :: IsAscii(Base64Encode(b)[k])
  {
  }

  /** Decoding the Base64 text itself or its percent-encoded form gives the same result. */
  lemma PercentEncodingTransparent(b: seq<Byte>, json: JsonCodec)
    ensures DecodePortalPayload(EncodeURIComponent(Base64Encode(b)), json) == DecodePortalPayload(Base64Encode(b), json)
  {
    var text := Base64Encode(b);
    NoPercentInBase64(b);
    DecodeWithoutPercent(text);
    Base64IsAscii(b);
    ComponentRoundTrip(text);
  }

  /** The payload survives encoding and decoding. */
  lemma PortalPayloadRoundTrip(p: PortalPayload, json: JsonCodec)
    requires RoundTrips(json)
    ensures DecodePortalPayload(EncodePortalPayload(p, json), json) == Some(p)
    ensures DecodePortalPayload(EncodeURIComponent(EncodePortalPayload(p, json)), json) == Some(p)
  {
    var bytes := json.serialize(p);
    NoPercentInBase64(bytes);
    DecodeWithoutPercent(Base64Encode(bytes));
    Base64RoundTrip(bytes);
    PercentEncodingTransparent(bytes, json);
  }

  /** `contact.properties?.email` */
  function PropertyEmail(contact: Contact): Option<string> {
    if contact.properties.Some? && "email" in contact.properties.value then contact.properties.value["email"] else None
  }

  /** The payload `buildPortalLink` encodes: the contact's id, and its property email or else its top-level one. */
  function LinkPayload(contact: Contact): (p: PortalPayload)
    ensures p.id == contact.id
    ensures Present(PropertyEmail(contact)) ==> p.email == PropertyEmail(contact)
    ensures !Present(PropertyEmail(contact)) ==> p.email == contact.email
  {
    PortalPayload(contact.id, if Present(PropertyEmail(contact)) then PropertyEmail(contact) else contact.email)
  }

  /** `${PORTAL_BASE_URL}`: an unset variable renders as the text `undefined`. */
  function BaseUrlText(portalBaseUrl: Option<string>): string {
    if portalBaseUrl.Some? then portalBaseUrl.value else "undefined"
  }

  function LinkPrefix(portalBaseUrl: Option<string>): string {
    BaseUrlText(portalBaseUrl) + "/upload-documents?data="
  }

  /** `buildPortalLink`: the upload page's address, followed by an ASCII `data` parameter. */
  function BuildPortalLink(contact: Contact, portalBaseUrl: Option<string>, json: JsonCodec): (link: string)
    ensures |LinkPrefix(portalBaseUrl)| <= |link| && link[..|LinkPrefix(portalBaseUrl)|] == LinkPrefix(portalBaseUrl)
    ensures forall k | |LinkPrefix(portalBaseUrl)| <= k < |link| :: IsAscii(link[k])
  {
    var prefix := LinkPrefix(portalBaseUrl);
    var data := EncodeURIComponent(EncodePortalPayload(LinkPayload(contact), json));
    AsciiAfterPrefix(prefix, data);
    prefix + data
  }

  lemma AsciiAfterPrefix(prefix: string, data: string)
    requires forall k | 0 <= k < |data| :: IsAscii(data[k])
    ensures |prefix| <= |prefix + data| && (prefix + data)[..|prefix|] == prefix
    ensures forall k | |prefix| <= k < |prefix + data| :: IsAscii((prefix + data)[k])
  {
    forall k | |prefix| <= k < |prefix + data|
      ensures IsAscii((prefix + data)[k])
    {
      assert (prefix + data)[k] == data[k - |prefix|];
    }
  }

  /** The link is the upload page's address, and its `data` parameter decodes to the contact's payload. */
  lemma PortalLinkCarriesPayload(contact: Contact, portalBaseUrl: Option<string>, json: JsonCodec)
    requires RoundTrips(json)
    ensures var link, prefix := BuildPortalLink(contact, portalBaseUrl, json), LinkPrefix(portalBaseUrl);
            |prefix| <= |link| && link[..|prefix|] == prefix &&
            DecodePortalPayload(link[|prefix|..], json) == Some(LinkPayload(contact))
  {
    var link, prefix := BuildPortalLink(contact, portalBaseUrl, json), LinkPrefix(portalBaseUrl);
    var data := EncodeURIComponent(EncodePortalPayload(LinkPayload(contact), json));
    assert link == prefix + data;
    assert link[..|prefix|] == prefix && link[|prefix|..] == data;
    PortalPayloadRoundTrip(LinkPayload(contact), json);
  }
}
