/**
 * buildEmailMessage: the outgoing message text. Header lines end in CR LF, an empty
 * line ends the header block, the body follows with a final CR LF (sections 2.1 and
 * 2.2 of RFC 5322; MIME-Version per section 4 of RFC 2045). The Date value, which
 * the source takes from the clock, is a parameter.
 */
module OutgoingMessage {
  import opened Wrappers
  import opened GoStrings

  /** What the compose form collects. */
  datatype EmailForm = EmailForm(
    to: string, cc: string, bcc: string, subject: string, body: string,
    priority: string, attachments: string, confirm: bool)

  const CRLF: string := "\r\n"

  /** The X-Priority and Importance lines for the form's priority value. */
  function PriorityHeaders(priority: string): (r: seq<string>)
    ensures |r| == 2
    ensures r == ["X-Priority: 1", "Importance: High"] <==> priority == "high"
    ensures r == ["X-Priority: 5", "Importance: Low"] <==> priority == "low"
    ensures r == ["X-Priority: 3", "Importance: Normal"] <==> priority != "high" && priority != "low"
  {
    if priority == "high" then ["X-Priority: 1", "Importance: High"]
    else if priority == "low" then ["X-Priority: 5", "Importance: Low"]
    else ["X-Priority: 3", "Importance: Normal"]
  }

  /** The address headers: From, To, and Cc when there is a Cc recipient. */
  function AddressLines(fromEmail: string, toRecipients: seq<string>, ccRecipients: seq<string>): seq<string> {
    ["From: " + fromEmail, "To: " + Join(toRecipients, ", ")]
    + (if |ccRecipients| > 0 then ["Cc: " + Join(ccRecipients, ", ")] else [])
  }

  /** The headers that describe the message: subject, date, MIME version, content type. */
  function DescriptionLines(subject: string, date: string): seq<string> {
    ["Subject: " + subject, "Date: " + date, "MIME-Version: 1.0", ContentType]
  }

  const ContentType: string := "Content-Type: text/plain; charset=UTF-8"
  const UserAgent: string := "User-Agent: CLI-Email-Client"

  /** The header lines, without their line ends, in the order they are written. */
  function HeaderLines(form: EmailForm, fromEmail: string, toRecipients: seq<string>,
                       ccRecipients: seq<string>, date: string): seq<string>
  {
    AddressLines(fromEmail, toRecipients, ccRecipients)
    + DescriptionLines(form.subject, date)
    + PriorityHeaders(form.priority)
    + [UserAgent]
  }

  /** Every header line followed by CR LF. */
  function HeaderBlock(headers: seq<string>): string
    decreases |headers|
  {
    if headers == [] then "" else headers[0] + CRLF + HeaderBlock(headers[1..])
  }

  /** The message layout: the header block, an empty line, the body, a final CR LF. */
  function Assemble(headers: seq<string>, body: string): string {
    HeaderBlock(headers) + CRLF + body + CRLF
  }

  lemma {:induction false} HeaderBlockSnoc(headers: seq<string>, line: string)
    ensures HeaderBlock(headers + [line]) == HeaderBlock(headers) + line + CRLF
    decreases |headers|
  {
    if headers == [] {
      assert headers + [line] == [line];
    } else {
      assert (headers + [line])[1..] == headers[1..] + [line];
      HeaderBlockSnoc(headers[1..], line);
    }
  }

  lemma {:induction false} HeaderBlockAppend(a: seq<string>, b: seq<string>)
    ensures HeaderBlock(a + b) == HeaderBlock(a) + HeaderBlock(b)
    decreases |a|
  {
    if a == [] {
      assert a + b == b;
    } else {
      assert (a + b)[1..] == a[1..] + b;
      HeaderBlockAppend(a[1..], b);
    }
  }

  /** One header write into the builder: the line and its CR LF go on the end of what the
      current section has written so far. */
  method WriteHeader(message: string, ghost before: string, ghost written: seq<string>, line: string)
    returns (r: string)
    requires message == before + HeaderBlock(written)
    ensures r == message + line + CRLF
    ensures r == before + HeaderBlock(written + [line])
  {
    HeaderBlockSnoc(written, line);
    r := message + line + CRLF;
  }

  /** The From, To and Cc writes. */
  method WriteAddressHeaders(message: string, fromEmail: string, toRecipients: seq<string>,
                             ccRecipients: seq<string>) returns (r: string)
    ensures r == message + HeaderBlock(AddressLines(fromEmail, toRecipients, ccRecipients))
  {
    var from, to := "From: " + fromEmail, "To: " + Join(toRecipients, ", ");
    r := WriteHeader(message, message, [], from);
    r := WriteHeader(r, message, [from], to);
    assert [from] + [to] == [from, to];
    if |ccRecipients| > 0 {
      var cc := "Cc: " + Join(ccRecipients, ", ");
      r := WriteHeader(r, message, [from, to], cc);
    }
  }

  /** The Subject, Date, MIME-Version and Content-Type writes. */
  method WriteDescriptionHeaders(message: string, subject: string, date: string) returns (r: string)
    ensures r == message + HeaderBlock(DescriptionLines(subject, date))
  {
    var s, d := "Subject: " + subject, "Date: " + date;
    r := WriteHeader(message, message, [], s);
    r := WriteHeader(r, message, [s], d);
    assert [s] + [d] == [s, d];
    r := WriteHeader(r, message, [s, d], "MIME-Version: 1.0");
    assert [s, d] + ["MIME-Version: 1.0"] == [s, d, "MIME-Version: 1.0"];
    r := WriteHeader(r, message, [s, d, "MIME-Version: 1.0"], ContentType);
    assert [s, d, "MIME-Version: 1.0"] + [ContentType] == DescriptionLines(subject, date);
  }

  /** The priority switch: two header writes chosen by the form's priority. */
  method WritePriorityHeaders(message: string, priority: string) returns (r: string)
    ensures r == message + HeaderBlock(PriorityHeaders(priority))
  {
    var first, second;
    if priority == "high" {
      first, second := "X-Priority: 1", "Importance: High";
    } else if priority == "low" {
      first, second := "X-Priority: 5", "Importance: Low";
    } else {
      first, second := "X-Priority: 3", "Importance: Normal";
    }
    r := WriteHeader(message, message, [], first);
    r := WriteHeader(r, message, [first], second);
    assert [first] + [second] == PriorityHeaders(priority);
  }

  /** The header block is the blocks of its sections, one after another. */
  lemma HeaderBlockSections(form: EmailForm, fromEmail: string, toRecipients: seq<string>,
                            ccRecipients: seq<string>, date: string)
    ensures HeaderBlock(HeaderLines(form, fromEmail, toRecipients, ccRecipients, date))
         == HeaderBlock(AddressLines(fromEmail, toRecipients, ccRecipients))
            + HeaderBlock(DescriptionLines(form.subject, date))
            + HeaderBlock(PriorityHeaders(form.priority))
            + (UserAgent + CRLF)
  {
    var a := AddressLines(fromEmail, toRecipients, ccRecipients);
    var d := DescriptionLines(form.subject, date);
    var p := PriorityHeaders(form.priority);
    HeaderBlockAppend(a + d + p, [UserAgent]);
    HeaderBlockAppend(a + d, p);
    HeaderBlockAppend(a, d);
    assert HeaderBlock([UserAgent]) == UserAgent + CRLF + HeaderBlock([]);
  }

  /**
   * buildEmailMessage, writing into a builder section by section. The caller passes the
   * SMTP user name as `fromEmail`; `date` stands for the formatted clock reading.
   */
  method BuildEmailMessage(form: EmailForm, fromEmail: string, toRecipients: seq<string>,
                           ccRecipients: seq<string>, date: string) returns (message: string)
    ensures message == Assemble(HeaderLines(form, fromEmail, toRecipients, ccRecipients, date), form.body)
  {
    message := WriteAddressHeaders("", fromEmail, toRecipients, ccRecipients);
    ghost var a := HeaderBlock(AddressLines(fromEmail, toRecipients, ccRecipients));
    assert message == a;
    message := WriteDescriptionHeaders(message, form.subject, date);
    message := WritePriorityHeaders(message, form.priority);
    ghost var sections := message;
    message := message + UserAgent + CRLF;
    assert message == sections + (UserAgent + CRLF);
    HeaderBlockSections(form, fromEmail, toRecipients, ccRecipients, date);
    message := message + CRLF;
    message := message + form.body;
    message := message + CRLF;
  }

  /** The message opens with the From line, carrying the sender it was given. */
  lemma MessageStartsWithFrom(form: EmailForm, fromEmail: string, toRecipients: seq<string>,
                              ccRecipients: seq<string>, date: string)
    ensures HasPrefix(Assemble(HeaderLines(form, fromEmail, toRecipients, ccRecipients, date), form.body),
                      "From: " + fromEmail + CRLF)
  {
    var headers := HeaderLines(form, fromEmail, toRecipients, ccRecipients, date);
    var first := "From: " + fromEmail + CRLF;
    assert headers[0] == "From: " + fromEmail;
    assert Assemble(headers, form.body) == first + (HeaderBlock(headers[1..]) + CRLF + form.body + CRLF);
  }

  /** A header line as the reader below sees it: not empty, with no CR inside. */
  predicate IsHeaderLine(h: string) {
    h != [] && '\r' !in h
  }

  /** The message as a reader sees it: its header lines and its body. */
  datatype ReadBack = ReadBack(headers: seq<string>, body: string)

  /** The length of the text before the first CR. */
  function LineLength(m: string): (k: nat)
    ensures k <= |m|
    ensures forall i :: 0 <= i < k ==> m[i] != '\r'
    ensures k < |m| ==> m[k] == '\r'
    decreases |m|
  {
    if m == [] || m[0] == '\r' then 0 else 1 + LineLength(m[1..])
  }

  /** Reads a message: CR LF terminated header lines up to the empty line, then a body
      that ends in CR LF. `None` when the text is not laid out that way. */
  function ReadMessage(m: string): Option<ReadBack>
    decreases |m|
  {
    if HasPrefix(m, CRLF) then
      var rest := m[2..];
      if |rest| >= 2 && rest[|rest| - 2..] == CRLF then Some(ReadBack([], rest[..|rest| - 2])) else None
    else
      var k := LineLength(m);
      if k == 0 || !HasPrefix(m[k..], CRLF) then None
      else
        match ReadMessage(m[k + 2..])
        case None => None
        case Some(p) => Some(ReadBack([m[..k]] + p.headers, p.body))
  }

  /** Reading an assembled message gives back its header lines and its body. */
  lemma {:induction false} ReadAssembled(headers: seq<string>, body: string)
    requires AllHeaderLines(headers)
    ensures ReadMessage(Assemble(headers, body)) == Some(ReadBack(headers, body))
    decreases |headers|
  {
    if headers == [] {
      ReadBodyOnly(body);
    } else {
      var h, rest := headers[0], headers[1..];
      var tail := Assemble(rest, body);
      assert IsHeaderLine(h) && AllHeaderLines(rest);
      ReadAssembled(rest, body);
      ReadHeaderLine(h, tail, ReadBack(rest, body));
      AssembleCons(headers, body);
      assert [h] + rest == headers;
    }
  }

  /** With no header lines, the reader sees the empty line and then the body. */
  lemma ReadBodyOnly(body: string)
    ensures ReadMessage(Assemble([], body)) == Some(ReadBack([], body))
  {
    var m := Assemble([], body);
    assert m == CRLF + (body + CRLF);
    assert HasPrefix(m, CRLF);
    assert m[2..] == body + CRLF;
  }

  /** An assembled message is its first header line, CR LF, and the message of the rest. */
  lemma AssembleCons(headers: seq<string>, body: string)
    requires headers != []
    ensures Assemble(headers, body) == headers[0] + CRLF + Assemble(headers[1..], body)
  {
  }

  /** Reading a header line, its CR LF, and the rest of a message. */
  lemma ReadHeaderLine(h: string, tail: string, p: ReadBack)
    requires IsHeaderLine(h) && ReadMessage(tail) == Some(p)
    ensures ReadMessage(h + CRLF + tail) == Some(ReadBack([h] + p.headers, p.body))
  {
    var m := h + CRLF + tail;
    assert m == h + (CRLF + tail);
    assert m[0] == h[0] && h[0] != '\r';
    assert !HasPrefix(m, CRLF);
    LineLengthOf(h, CRLF + tail);
    assert m[|h|..] == CRLF + tail;
    assert m[|h| + 2..] == tail;
    assert m[..|h|] == h;
  }

  lemma LineLengthOf(h: string, t: string)
    requires '\r' !in h && t != [] && t[0] == '\r'
    ensures LineLength(h + t) == |h|
    decreases |h|
  {
    if h != [] {
      assert (h + t)[1..] == h[1..] + t;
      LineLengthOf(h[1..], t);
    } else {
      assert h + t == t;
    }
  }

  /** Text with no CR, the character that ends a line for the reader below. */
  predicate NoCR(s: string) {
    '\r' !in s
  }

  /** Every line of the list is a header line. */
  predicate AllHeaderLines(hs: seq<string>) {
    forall i :: 0 <= i < |hs| ==> IsHeaderLine(hs[i])
  }

  lemma AllHeaderLinesAppend(a: seq<string>, b: seq<string>)
    requires AllHeaderLines(a) && AllHeaderLines(b)
    ensures AllHeaderLines(a + b)
  {
    forall i | 0 <= i < |a + b|
      ensures IsHeaderLine((a + b)[i])
    {
      if i >= |a| {
        assert (a + b)[i] == b[i - |a|];
      }
    }
  }

  /** A header name followed by a value without CR is a header line. */
  lemma HeaderLineOf(name: string, value: string)
    requires name != [] && NoCR(name) && NoCR(value)
    ensures IsHeaderLine(name + value)
  {
    assert (name + value)[0] == name[0];
  }

  lemma ContentTypeLineWellFormed()
    ensures IsHeaderLine(ContentType)
  {
  }

  lemma PriorityLinesWellFormed(priority: string)
    ensures AllHeaderLines(PriorityHeaders(priority))
  {
  }

  lemma UserAgentLineWellFormed()
    ensures AllHeaderLines([UserAgent])
  {
    assert IsHeaderLine(UserAgent);
  }

  /** The header names the builder writes hold no CR. */
  lemma HeaderNamesNoCR()
    ensures NoCR("From: ") && NoCR("To: ") && NoCR("Cc: ")
    ensures NoCR("Subject: ") && NoCR("Date: ")
  {
  }

  lemma AddressLinesWellFormed(fromEmail: string, toRecipients: seq<string>, ccRecipients: seq<string>)
    requires NoCR(fromEmail)
    requires forall i :: 0 <= i < |toRecipients| ==> NoCR(toRecipients[i])
    requires forall i :: 0 <= i < |ccRecipients| ==> NoCR(ccRecipients[i])
    ensures AllHeaderLines(AddressLines(fromEmail, toRecipients, ccRecipients))
  {
    HeaderNamesNoCR();
    JoinNoCR(toRecipients, ", ");
    JoinNoCR(ccRecipients, ", ");
    HeaderLineOf("From: ", fromEmail);
    HeaderLineOf("To: ", Join(toRecipients, ", "));
    if |ccRecipients| > 0 {
      HeaderLineOf("Cc: ", Join(ccRecipients, ", "));
    }
  }

  lemma DescriptionLinesWellFormed(subject: string, date: string)
    requires NoCR(subject) && NoCR(date)
    ensures AllHeaderLines(DescriptionLines(subject, date))
  {
    HeaderNamesNoCR();
    HeaderLineOf("Subject: ", subject);
    HeaderLineOf("Date: ", date);
    assert IsHeaderLine("MIME-Version: 1.0");
    ContentTypeLineWellFormed();
  }

  /** With no CR in the values, every line buildEmailMessage writes is a header line. */
  lemma HeaderLinesWellFormed(form: EmailForm, fromEmail: string, toRecipients: seq<string>,
                              ccRecipients: seq<string>, date: string)
    requires NoCR(fromEmail) && NoCR(form.subject) && NoCR(date)
    requires forall i :: 0 <= i < |toRecipients| ==> NoCR(toRecipients[i])
    requires forall i :: 0 <= i < |ccRecipients| ==> NoCR(ccRecipients[i])
    ensures AllHeaderLines(HeaderLines(form, fromEmail, toRecipients, ccRecipients, date))
  {
    var a := AddressLines(fromEmail, toRecipients, ccRecipients);
    var d := DescriptionLines(form.subject, date);
    var p := PriorityHeaders(form.priority);
    AddressLinesWellFormed(fromEmail, toRecipients, ccRecipients);
    DescriptionLinesWellFormed(form.subject, date);
    PriorityLinesWellFormed(form.priority);
    UserAgentLineWellFormed();
    AllHeaderLinesAppend(a, d);
    AllHeaderLinesAppend(a + d, p);
    AllHeaderLinesAppend(a + d + p, [UserAgent]);
  }

  /** When the sender, the recipients, the subject and the date hold no CR, the
      message reads back as exactly the header lines of buildEmailMessage and the body. */
  lemma MessageReadsBack(form: EmailForm, fromEmail: string, toRecipients: seq<string>,
                         ccRecipients: seq<string>, date: string)
    requires NoCR(fromEmail) && NoCR(form.subject) && NoCR(date)
    requires forall i :: 0 <= i < |toRecipients| ==> NoCR(toRecipients[i])
    requires forall i :: 0 <= i < |ccRecipients| ==> NoCR(ccRecipients[i])
    ensures var headers := HeaderLines(form, fromEmail, toRecipients, ccRecipients, date);
      ReadMessage(Assemble(headers, form.body)) == Some(ReadBack(headers, form.body))
  {
    HeaderLinesWellFormed(form, fromEmail, toRecipients, ccRecipients, date);
    ReadAssembled(HeaderLines(form, fromEmail, toRecipients, ccRecipients, date), form.body);
  }

  lemma {:induction false} JoinNoCR(xs: seq<string>, sep: string)
    requires NoCR(sep)
    requires forall i :: 0 <= i < |xs| ==> NoCR(xs[i])
    ensures NoCR(Join(xs, sep))
    decreases |xs|
  {
    if |xs| > 1 {
      JoinNoCR(xs[1..], sep);
    }
  }

  /** A Cc header line is written iff there is a Cc recipient. */
  lemma CcHeaderIffCc(form: EmailForm, fromEmail: string, toRecipients: seq<string>,
                      ccRecipients: seq<string>, date: string)
    ensures var headers := HeaderLines(form, fromEmail, toRecipients, ccRecipients, date);
      (exists i :: 0 <= i < |headers| && HasPrefix(headers[i], "Cc: ")) <==> |ccRecipients| > 0
  {
    var headers := HeaderLines(form, fromEmail, toRecipients, ccRecipients, date);
    if |ccRecipients| > 0 {
      assert HasPrefix(headers[2], "Cc: ");
    } else {
      forall i | 0 <= i < |headers|
        ensures !HasPrefix(headers[i], "Cc: ")
      {
        var h := headers[i];
        assert h[0] != 'C' || h[1] != 'c';
      }
    }
  }
}
