/**
 * How a fetched message body is classified (parseEmailBody) and the fallback when
 * the message cannot be parsed (fetchEmailBodyParsed). Multipart bodies follow
 * section 5.1 of RFC 2046. The outputs of Go's mail, mime and multipart parsers
 * are inputs here: their internals are not part of this model.
 */
module MimeBody {
  import opened Wrappers
  import opened GoStrings

  /** The body fields a body load fills in on an `Email`. */
  datatype BodyFields = BodyFields(body: string, htmlBody: string, textBody: string, contentType: string)

  /** One step of the multipart reader: a part whose NextPart or ReadAll failed
      (the loop skips it), or a part with its parsed media type ("" when unparseable). */
  datatype PartRead = PartFailed | Part(mediaType: string, body: string)

  /**
   * What the parsers make of a message that mail.ReadMessage accepted: the media type
   * of its Content-Type header (`None` when ParseMediaType fails), the parts the
   * multipart reader yields, and the whole body as read by ReadAll (`None` on a read error).
   */
  datatype ParsedMessage = ParsedMessage(mediaType: Option<string>, parts: seq<PartRead>, body: Option<string>)

  const TextPlain: string := "text/plain"
  const TextHtml: string := "text/html"
  const Multipart: string := "multipart/"

  predicate IsHtml(mediaType: string) {
    HasPrefix(mediaType, TextHtml)
  }

  /** The switch tests text/html first, so a plain part is one that is not html. */
  predicate IsPlain(mediaType: string) {
    !IsHtml(mediaType) && HasPrefix(mediaType, TextPlain)
  }

  /** The body of the last part whose media type satisfies `kind`; "" when none does. */
  function LastPartBody(parts: seq<PartRead>, kind: string -> bool): string
    decreases |parts|
  {
    if parts == [] then ""
    else
      var last := parts[|parts| - 1];
      if Matches(last, kind) then last.body
      else LastPartBody(parts[..|parts| - 1], kind)
  }

  /** A part the switch of parseEmailBody takes for the given kind. */
  predicate Matches(part: PartRead, kind: string -> bool) {
    part.Part? && kind(part.mediaType)
  }

  /** With no matching part, LastPartBody is empty. */
  lemma {:induction false} LastPartBodyNone(parts: seq<PartRead>, kind: string -> bool)
    requires forall i :: 0 <= i < |parts| ==> !Matches(parts[i], kind)
    ensures LastPartBody(parts, kind) == ""
    decreases |parts|
  {
    if parts != [] {
      var init := parts[..|parts| - 1];
      assert forall i :: 0 <= i < |init| ==> init[i] == parts[i];
      assert !Matches(parts[|parts| - 1], kind);
      LastPartBodyNone(init, kind);
    }
  }

  /** LastPartBody is the body of the matching part that no later part matches. */
  lemma {:induction false} LastPartBodyAt(parts: seq<PartRead>, kind: string -> bool, i: nat)
    requires i < |parts| && Matches(parts[i], kind)
    requires forall j :: i < j < |parts| ==> !Matches(parts[j], kind)
    ensures LastPartBody(parts, kind) == parts[i].body
    decreases |parts|
  {
    var n := |parts| - 1;
    if i < n {
      var init := parts[..n];
      assert forall j :: 0 <= j < n ==> init[j] == parts[j];
      assert !Matches(parts[n], kind);
      LastPartBodyAt(init, kind, i);
    }
  }

  /** The body to display: the plain-text part when it is not empty, else the html part. */
  function MergedBody(textBody: string, htmlBody: string): (r: string)
    ensures r == "" <==> textBody == "" && htmlBody == ""
    ensures r == textBody || r == htmlBody
    ensures textBody != "" ==> r == textBody
  {
    if textBody != "" then textBody else htmlBody
  }

  /** The media type parseEmailBody works with: text/plain when the header does not parse. */
  function MediaTypeOf(m: ParsedMessage): string {
    m.mediaType.GetOr(TextPlain)
  }

  /** Whether parseEmailBody succeeds: the message was read, and unless it is multipart
      its body could be read too. */
  predicate Parses(message: Option<ParsedMessage>) {
    message.Some? && (HasPrefix(MediaTypeOf(message.value), Multipart) || message.value.body.Some?)
  }

  /** The fields parseEmailBody produces for a message that parses. */
  function Classified(m: ParsedMessage): BodyFields
    requires Parses(Some(m))
  {
    var mediaType := MediaTypeOf(m);
    var htmlBody :=
      if HasPrefix(mediaType, Multipart) then LastPartBody(m.parts, IsHtml)
      else if IsHtml(mediaType) then m.body.value else "";
    var textBody :=
      if HasPrefix(mediaType, Multipart) then LastPartBody(m.parts, IsPlain)
      else if IsHtml(mediaType) then "" else m.body.value;
    BodyFields(MergedBody(textBody, htmlBody), htmlBody, textBody, mediaType)
  }

  /**
   * parseEmailBody. `message` is `None` when mail.ReadMessage fails. The content type is
   * the parsed media type (text/plain when unparseable). In a multipart message the last
   * text/html part gives the html body and the last text/plain part the text body; other
   * parts are ignored. Otherwise the whole body is html when the type is text/html and
   * text else. The display body is the text body when not empty, else the html body.
   */
  method ParseEmailBody(message: Option<ParsedMessage>) returns (r: Option<BodyFields>)
    ensures r.Some? <==> Parses(message)
    ensures r.Some? ==> r.value == Classified(message.value)
    ensures r.Some? ==>
      var m := message.value;
      var mediaType := MediaTypeOf(m);
      && r.value.contentType == mediaType
      && r.value.body == MergedBody(r.value.textBody, r.value.htmlBody)
      && (HasPrefix(mediaType, Multipart) ==>
            && r.value.htmlBody == LastPartBody(m.parts, IsHtml)
            && r.value.textBody == LastPartBody(m.parts, IsPlain))
      && (!HasPrefix(mediaType, Multipart) ==>
            && r.value.body == m.body.value
            && (IsHtml(mediaType) ==> r.value.htmlBody == m.body.value && r.value.textBody == "")
            && (!IsHtml(mediaType) ==> r.value.textBody == m.body.value && r.value.htmlBody == ""))
  {
    if message.None? {
      return None;
    }
    var m := message.value;
    var mediaType := if m.mediaType.Some? then m.mediaType.value else TextPlain;
    var htmlBody, textBody := "", "";
    if HasPrefix(mediaType, Multipart) {
      var i := 0;
      while i < |m.parts|
        invariant 0 <= i <= |m.parts|
        invariant htmlBody == LastPartBody(m.parts[..i], IsHtml)
        invariant textBody == LastPartBody(m.parts[..i], IsPlain)
      {
        assert m.parts[..i + 1][..i] == m.parts[..i];
        var part := m.parts[i];
        if part.Part? {
          if HasPrefix(part.mediaType, TextHtml) {
            htmlBody := part.body;
          } else if HasPrefix(part.mediaType, TextPlain) {
            textBody := part.body;
          }
        }
        i := i + 1;
      }
      assert m.parts[..i] == m.parts;
    } else {
      if m.body.None? {
        return None;
      }
      if HasPrefix(mediaType, TextHtml) {
        htmlBody := m.body.value;
      } else {
        textBody := m.body.value;
      }
    }
    var body := "";
    if textBody != "" {
      body := textBody;
    } else if htmlBody != "" {
      body := htmlBody;
    }
    r := Some(BodyFields(body, htmlBody, textBody, mediaType));
  }

  /** What the UID FETCH of the body section delivered: no readable section, a read
      error, or the raw message text. */
  datatype BodyFetch = NoSection | ReadFailed(reason: string) | Raw(text: string)

  /**
   * fetchEmailBodyParsed: read the raw body and parse it; `parsed` is what the parsers
   * make of that raw text. Only a missing section or a read error is an error; a message
   * that does not parse is shown as its raw text with content type text/plain.
   */
  method FetchEmailBodyParsed(fetch: BodyFetch, parsed: Option<ParsedMessage>) returns (r: Result<BodyFields, string>)
    ensures fetch.NoSection? ==> r == Failure("could not load email body")
    ensures fetch.ReadFailed? ==> r == Failure(fetch.reason)
    ensures fetch.Raw? && !Parses(parsed) ==> r == Success(BodyFields(fetch.text, "", "", TextPlain))
    ensures fetch.Raw? && Parses(parsed) ==> r == Success(Classified(parsed.value))
  {
    match fetch {
      case NoSection =>
        r := Failure("could not load email body");
      case ReadFailed(reason) =>
        r := Failure(reason);
      case Raw(text) =>
        var fields := ParseEmailBody(parsed);
        if fields.None? {
          r := Success(BodyFields(text, "", "", TextPlain));
        } else {
          r := Success(fields.value);
        }
    }
  }

  /** The worked examples: a multipart message with a plain and an html part, a single
      text/html message, and a message whose Content-Type does not parse. */
  lemma ClassificationExamples()
    ensures var multi := ParsedMessage(Some("multipart/alternative"),
        [Part("text/plain", "Hello"), Part("text/html", "<p>Hello</p>")], None);
      Parses(Some(multi))
      && Classified(multi) == BodyFields("Hello", "<p>Hello</p>", "Hello", "multipart/alternative")
    ensures var html := ParsedMessage(Some("text/html"), [], Some("<b>Hi</b>"));
      Parses(Some(html)) && Classified(html) == BodyFields("<b>Hi</b>", "<b>Hi</b>", "", "text/html")
    ensures var bad := ParsedMessage(None, [], Some("hi"));
      Parses(Some(bad)) && Classified(bad) == BodyFields("hi", "", "hi", "text/plain")
  {
    var parts := [Part("text/plain", "Hello"), Part("text/html", "<p>Hello</p>")];
    assert HasPrefix("multipart/alternative", Multipart);
    assert "text/plain"[..|TextHtml|] != TextHtml by { assert "text/plain"[5] != TextHtml[5]; }
    assert IsHtml("text/html") && !IsHtml("text/plain") && IsPlain("text/plain");
    assert parts[..1] == [Part("text/plain", "Hello")];
    assert !HasPrefix("text/plain", Multipart);
    assert !HasPrefix("text/html", Multipart);
  }
}
