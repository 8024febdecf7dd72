/**
 * The compose side of the client: splitting the recipient fields (parseRecipients),
 * the form's validators, and what sendEmail does before it talks to the SMTP server:
 * the confirm gate, the envelope recipients and the message it hands over.
 */
module Compose {
  import opened Wrappers
  import opened GoStrings
  import opened OutgoingMessage

  /** One piece, trimmed, unless trimming leaves nothing. */
  function Kept(piece: string): seq<string> {
    if TrimSpace(piece) == [] then [] else [TrimSpace(piece)]
  }

  /** The pieces of a comma-separated field, trimmed, empty ones dropped, in order. */
  function KeepTrimmed(pieces: seq<string>): seq<string>
    decreases |pieces|
  {
    if pieces == [] then [] else Kept(pieces[0]) + KeepTrimmed(pieces[1..])
  }

  /** What parseRecipients returns for a field. */
  function Recipients(field: string): seq<string> {
    if field == "" then [] else KeepTrimmed(Split(field, ','))
  }

  /** A recipient as parseRecipients hands it out: not empty, no white space at either
      end, no comma. */
  predicate WellFormedRecipient(x: string) {
    x != [] && !IsSpace(x[0]) && !IsSpace(x[|x| - 1]) && ',' !in x
  }

  lemma {:induction false} KeepTrimmedAppend(a: seq<string>, b: seq<string>)
    ensures KeepTrimmed(a + b) == KeepTrimmed(a) + KeepTrimmed(b)
    decreases |a|
  {
    if a == [] {
      assert a + b == b;
    } else {
      assert (a + b)[0] == a[0];
      assert (a + b)[1..] == a[1..] + b;
      KeepTrimmedAppend(a[1..], b);
      calc {
        KeepTrimmed(a + b);
        Kept(a[0]) + KeepTrimmed(a[1..] + b);
        Kept(a[0]) + (KeepTrimmed(a[1..]) + KeepTrimmed(b));
        (Kept(a[0]) + KeepTrimmed(a[1..])) + KeepTrimmed(b);
      }
    }
  }

  lemma KeptWellFormed(piece: string)
    requires ',' !in piece
    ensures forall i :: 0 <= i < |Kept(piece)| ==> WellFormedRecipient(Kept(piece)[i])
  {
    var t := TrimSpace(piece);
    if t != [] {
      var a := LeadingSpace(piece);
      forall k | 0 <= k < |t|
        ensures t[k] != ','
      {
        assert t[k] == piece[a + k];
        assert piece[a + k] in piece;
      }
      assert Kept(piece) == [t];
    }
  }

  lemma {:induction false} KeepTrimmedWellFormed(pieces: seq<string>)
    requires forall i :: 0 <= i < |pieces| ==> ',' !in pieces[i]
    ensures forall i :: 0 <= i < |KeepTrimmed(pieces)| ==> WellFormedRecipient(KeepTrimmed(pieces)[i])
    decreases |pieces|
  {
    if pieces != [] {
      KeptWellFormed(pieces[0]);
      KeepTrimmedWellFormed(pieces[1..]);
      var k, r := Kept(pieces[0]), KeepTrimmed(pieces[1..]);
      assert forall i :: 0 <= i < |k + r| ==> (k + r)[i] == if i < |k| then k[i] else r[i - |k|];
    }
  }

  /** Every recipient parseRecipients returns is well formed. */
  lemma RecipientsWellFormed(field: string)
    ensures forall i :: 0 <= i < |Recipients(field)| ==> WellFormedRecipient(Recipients(field)[i])
  {
    if field != "" {
      KeepTrimmedWellFormed(Split(field, ','));
    }
  }

  lemma KeepTrimmedSnoc(pieces: seq<string>, i: nat)
    requires i < |pieces|
    ensures KeepTrimmed(pieces[..i + 1]) == KeepTrimmed(pieces[..i]) + Kept(pieces[i])
  {
    assert pieces[..i + 1] == pieces[..i] + [pieces[i]];
    assert KeepTrimmed([pieces[i]]) == Kept(pieces[i]) + [];
    KeepTrimmedAppend(pieces[..i], [pieces[i]]);
  }

  /** parseRecipients: nil for an empty field; otherwise split at commas, trim, and keep
      the pieces that are not empty. */
  method ParseRecipients(recipients: string) returns (parsed: seq<string>)
    ensures parsed == Recipients(recipients)
    ensures recipients == "" ==> parsed == []
    ensures forall i :: 0 <= i < |parsed| ==> WellFormedRecipient(parsed[i])
  {
    if recipients == "" {
      return [];
    }
    parsed := [];
    var pieces := Split(recipients, ',');
    for i := 0 to |pieces|
      invariant parsed == KeepTrimmed(pieces[..i])
    {
      var recipient := TrimSpace(pieces[i]);
      KeepTrimmedSnoc(pieces, i);
      if recipient != "" {
        parsed := parsed + [recipient];
      }
    }
    assert pieces[..|pieces|] == pieces;
    RecipientsWellFormed(recipients);
  }

  /** One leading space does not change TrimSpace. */
  lemma TrimSpaceDropsSpace(p: string)
    ensures TrimSpace(" " + p) == TrimSpace(p)
  {
    var s := " " + p;
    assert s[1..] == p;
    assert LeadingSpace(s) == 1 + LeadingSpace(p);
    assert s[LeadingSpace(s)..] == p[LeadingSpace(p)..];
  }

  /** Splitting x, a separator, then t gives x followed by the pieces of t. */
  lemma SplitAfterPiece(x: string, t: string, sep: char)
    requires sep !in x
    ensures Split(x + [sep] + t, sep) == [x] + Split(t, sep)
  {
    var u := [sep] + t;
    assert u[0] == sep && u[1..] == t;
    SplitPrepend(x, u, sep);
    assert x + [sep] + t == x + u;
    assert x + [] == x;
  }

  /** Spaces after the comma do not change the parsed recipients. */
  lemma KeepTrimmedAfterSpace(t: string)
    ensures KeepTrimmed(Split(" " + t, ',')) == KeepTrimmed(Split(t, ','))
  {
    var st := Split(t, ',');
    SplitPrepend(" ", t, ',');
    TrimSpaceDropsSpace(st[0]);
    var a := [" " + st[0]] + st[1..];
    assert a[1..] == st[1..];
    assert st == [st[0]] + st[1..];
  }

  /** Joining well-formed recipients with ", " and parsing the result gives them back:
      parseRecipients keeps every recipient, in order. */
  lemma {:induction false} RecipientsOfJoin(xs: seq<string>)
    requires forall i :: 0 <= i < |xs| ==> WellFormedRecipient(xs[i])
    ensures Recipients(Join(xs, ", ")) == xs
    decreases |xs|
  {
    if |xs| > 0 {
      assert Join(xs, ", ") != "" by {
        if |xs| > 1 {
          assert Join(xs, ", ") == xs[0] + (", " + Join(xs[1..], ", "));
        }
      }
      JoinParses(xs);
    }
  }

  lemma {:induction false} JoinParses(xs: seq<string>)
    requires |xs| > 0
    requires forall i :: 0 <= i < |xs| ==> WellFormedRecipient(xs[i])
    ensures KeepTrimmed(Split(Join(xs, ", "), ',')) == xs
    decreases |xs|
  {
    if |xs| == 1 {
      SplitWhole(xs[0], ',');
      KeepTrimmedCons(xs[0], []);
    } else {
      JoinParses(xs[1..]);
      JoinParsesStep(xs);
    }
  }

  /** One step of the round trip: the first recipient, then the parse of the rest. */
  lemma JoinParsesStep(xs: seq<string>)
    requires |xs| > 1 && WellFormedRecipient(xs[0])
    requires KeepTrimmed(Split(Join(xs[1..], ", "), ',')) == xs[1..]
    ensures KeepTrimmed(Split(Join(xs, ", "), ',')) == xs
  {
    var x, j := xs[0], Join(xs[1..], ", ");
    JoinCommaSpace(xs);
    SplitAfterPiece(x, " " + j, ',');
    KeepTrimmedAfterSpace(j);
    KeepTrimmedCons(x, Split(" " + j, ','));
    assert xs == [x] + xs[1..];
  }

  /** A string without the separator splits into itself alone. */
  lemma SplitWhole(x: string, sep: char)
    requires sep !in x
    ensures Split(x, sep) == [x]
  {
    SplitPrepend(x, [], sep);
    assert x + [] == x;
  }

  /** A well-formed recipient in front survives parsing unchanged. */
  lemma KeepTrimmedCons(x: string, rest: seq<string>)
    requires WellFormedRecipient(x)
    ensures KeepTrimmed([x] + rest) == [x] + KeepTrimmed(rest)
  {
    TrimSpaceOfTrimmed(x);
    assert ([x] + rest)[1..] == rest;
  }

  /** Joining with ", " puts a comma, then a space, between the first element and the rest. */
  lemma JoinCommaSpace(xs: seq<string>)
    requires |xs| > 1
    ensures Join(xs, ", ") == xs[0] + [','] + (" " + Join(xs[1..], ", "))
  {
    var x, j := xs[0], Join(xs[1..], ", ");
    assert Join(xs, ", ") == x + ", " + j;
    assert ", " == [','] + " ";
    assert x + ([','] + " ") + j == x + [','] + (" " + j);
  }

  /** The To validator's test of one trimmed piece. */
  predicate ValidAddress(x: string) {
    Contains(x, "@") && Contains(x, ".")
  }

  /** The To field passes validation: something besides white space, and every piece
      between commas, trimmed, holds an '@' and a '.'. */
  predicate ToAccepted(field: string) {
    TrimSpace(field) != ""
    && forall i :: 0 <= i < |Split(field, ',')| ==> ValidAddress(TrimSpace(Split(field, ',')[i]))
  }

  /** Piece `i` is the first that fails the To validator's test. */
  predicate FirstInvalidAt(pieces: seq<string>, i: int) {
    && 0 <= i < |pieces|
    && !ValidAddress(TrimSpace(pieces[i]))
    && forall k :: 0 <= k < i ==> ValidAddress(TrimSpace(pieces[k]))
  }

  const RecipientRequired: string := "recipient is required"
  const InvalidFormat: string := "invalid email format: "

  /** The To validator: an empty field, else the first piece that fails, is reported. */
  method ValidateTo(field: string) returns (err: Option<string>)
    ensures err.None? <==> ToAccepted(field)
    ensures TrimSpace(field) == "" ==> err == Some(RecipientRequired)
    ensures TrimSpace(field) != "" && err.Some? ==>
      exists i :: FirstInvalidAt(Split(field, ','), i)
        && err.value == InvalidFormat + TrimSpace(Split(field, ',')[i])
  {
    if TrimSpace(field) == "" {
      return Some(RecipientRequired);
    }
    var recipients := Split(field, ',');
    for i := 0 to |recipients|
      invariant forall k :: 0 <= k < i ==> ValidAddress(TrimSpace(recipients[k]))
    {
      var recipient := TrimSpace(recipients[i]);
      if !Contains(recipient, "@") || !Contains(recipient, ".") {
        assert !ValidAddress(TrimSpace(recipients[i]));
        assert FirstInvalidAt(recipients, i);
        return Some(InvalidFormat + recipient);
      }
    }
    return None;
  }

  /** Empty pieces are not skipped, so a To field ending in a comma never validates. */
  lemma TrailingCommaRejected(field: string)
    requires field != [] && field[|field| - 1] == ','
    ensures !ToAccepted(field)
  {
    var pieces := Split(field, ',');
    SplitTrailingSeparator(field, ',');
    assert TrimSpace(pieces[|pieces| - 1]) == [];
    assert !Contains([], "@");
  }

  /** For a To field that validates, parseRecipients drops nothing: one recipient per
      piece, in order, each with an '@' and a '.'. */
  lemma AcceptedToParsesEveryPiece(field: string)
    requires ToAccepted(field)
    ensures var pieces := Split(field, ',');
      && |Recipients(field)| == |pieces|
      && (forall i :: 0 <= i < |pieces| ==> Recipients(field)[i] == TrimSpace(pieces[i]))
      && (forall i :: 0 <= i < |pieces| ==> ValidAddress(Recipients(field)[i]))
  {
    assert field != "";
    var pieces := Split(field, ',');
    forall i | 0 <= i < |pieces|
      ensures TrimSpace(pieces[i]) != []
    {
      assert Contains(TrimSpace(pieces[i]), "@");
      ContainsNonEmpty(TrimSpace(pieces[i]), "@");
    }
    KeepTrimmedNoneEmpty(pieces);
  }

  lemma ContainsNonEmpty(s: string, sub: string)
    requires sub != [] && Contains(s, sub)
    ensures s != []
  {
    var i := ContainsWitness(s, sub);
  }

  lemma {:induction false} KeepTrimmedNoneEmpty(pieces: seq<string>)
    requires forall i :: 0 <= i < |pieces| ==> TrimSpace(pieces[i]) != []
    ensures |KeepTrimmed(pieces)| == |pieces|
    ensures forall i :: 0 <= i < |pieces| ==> KeepTrimmed(pieces)[i] == TrimSpace(pieces[i])
    decreases |pieces|
  {
    if pieces != [] {
      KeepTrimmedNoneEmpty(pieces[1..]);
    }
  }

  /** The Subject validator: rejects exactly the subjects made only of white space. */
  function ValidateSubject(subject: string): (err: Option<string>)
    ensures err.Some? <==> forall i :: 0 <= i < |subject| ==> IsSpace(subject[i])
    ensures err.Some? ==> err.value == "subject is required"
  {
    TrimSpaceEmpty(subject);
    if TrimSpace(subject) == "" then Some("subject is required") else None
  }

  /** The Body validator: rejects exactly the bodies made only of white space. */
  function ValidateBody(body: string): (err: Option<string>)
    ensures err.Some? <==> forall i :: 0 <= i < |body| ==> IsSpace(body[i])
    ensures err.Some? ==> err.value == "email body is required"
  {
    TrimSpaceEmpty(body);
    if TrimSpace(body) == "" then Some("email body is required") else None
  }

  /** What sendEmail does, up to the SMTP conversation: nothing when not confirmed, an
      error when there is no recipient at all, else a delivery from `sender` to
      `recipients` of `message`. */
  datatype SendOutcome = Cancelled | Failed(reason: string) | Deliver(sender: string, recipients: seq<string>, message: string)

  /** The envelope recipients: To, then Cc, then Bcc. */
  function AllRecipients(form: EmailForm): seq<string> {
    Recipients(form.to) + Recipients(form.cc) + Recipients(form.bcc)
  }

  /** The text sendEmail hands to the server: buildEmailMessage with the SMTP user name
      as sender and the parsed To and Cc lists. */
  function MessageFor(form: EmailForm, username: string, date: string): string {
    Assemble(HeaderLines(form, username, Recipients(form.to), Recipients(form.cc), date), form.body)
  }

  /**
   * sendEmail before the network: the confirm gate, the recipient lists and the message.
   * The connection, authentication and data transfer that follow are not modelled.
   */
  method SendEmail(form: EmailForm, username: string, date: string) returns (outcome: SendOutcome)
    ensures !form.confirm ==> outcome == Cancelled
    ensures form.confirm && AllRecipients(form) == [] ==> outcome == Failed("no valid recipients found")
    ensures form.confirm && AllRecipients(form) != [] ==>
      outcome == Deliver(username, AllRecipients(form), MessageFor(form, username, date))
    ensures outcome.Deliver? ==>
      forall i :: 0 <= i < |outcome.recipients| ==> WellFormedRecipient(outcome.recipients[i])
  {
    if !form.confirm {
      return Cancelled;
    }
    var toRecipients := ParseRecipients(form.to);
    var ccRecipients := ParseRecipients(form.cc);
    var bccRecipients := ParseRecipients(form.bcc);
    var allRecipients := toRecipients + ccRecipients;
    allRecipients := allRecipients + bccRecipients;
    if |allRecipients| == 0 {
      return Failed("no valid recipients found");
    }
    var message := BuildEmailMessage(form, username, toRecipients, ccRecipients, date);
    outcome := Deliver(username, allRecipients, message);
  }

  /** Bcc recipients are in the envelope only: the message text is the same whatever
      the Bcc field holds, and its From line names the SMTP user. */
  lemma MessageIgnoresBcc(form: EmailForm, bcc: string, username: string, date: string)
    ensures MessageFor(form.(bcc := bcc), username, date) == MessageFor(form, username, date)
    ensures HasPrefix(MessageFor(form, username, date), "From: " + username + CRLF)
  {
    MessageStartsWithFrom(form, username, Recipients(form.to), Recipients(form.cc), date);
  }
}
