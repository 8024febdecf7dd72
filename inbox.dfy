/**
 * The messages of the inbox list and how fetchEmails builds one page of them
 * from the IMAP FETCH results (ENVELOPE, FLAGS, UID; section 7.4.2 of RFC 3501).
 * The fetched records are an input: the IMAP session itself is not modelled.
 */
module Inbox {
  import opened Wrappers
  import opened Pagination

  /** One address of an envelope; a nil entry in the Go slice is `None`. */
  datatype Address = Address(personalName: string, mailboxName: string, hostName: string)

  /** The envelope fields the client reads; dates are instants as integers. */
  datatype Envelope = Envelope(date: int, subject: string, from: seq<Option<Address>>, to: seq<Option<Address>>)

  /** One record of the FETCH response; a nil envelope is `None`. */
  datatype FetchedMessage = FetchedMessage(uid: u32, envelope: Option<Envelope>, flags: seq<string>)

  /** A message of the inbox. The four body fields stay empty until the body is fetched. */
  datatype Email = Email(
    uid: u32, subject: string, from: string, to: string, date: int,
    body: string, htmlBody: string, textBody: string, contentType: string,
    seen: bool)

  const SeenFlag: string := "\\Seen"
  const NoSubject: string := "(No Subject)"
  const UnknownSender: string := "Unknown"

  /** The display string of the first address of a list: its personal name, else
      mailbox@host; `absent` when the list is empty or its first entry is nil. */
  function DisplayAddress(addrs: seq<Option<Address>>, absent: string): (r: string)
    ensures (|addrs| == 0 || addrs[0].None?) ==> r == absent
    ensures |addrs| > 0 && addrs[0].Some? ==> r != ""
    ensures |addrs| > 0 && addrs[0].Some? && addrs[0].value.personalName != "" ==> r == addrs[0].value.personalName
    ensures |addrs| > 0 && addrs[0].Some? && addrs[0].value.personalName == "" ==>
      r == addrs[0].value.mailboxName + "@" + addrs[0].value.hostName && '@' in r
  {
    if |addrs| > 0 && addrs[0].Some? then
      var a := addrs[0].value;
      if a.personalName != "" then a.personalName
      else
        var r := a.mailboxName + "@" + a.hostName;
        assert r[|a.mailboxName|] == '@';
        r
    else absent
  }

  /** The header facts every freshly fetched `Email` has: a subject that is never empty,
      a sender that is never empty, and no body yet. */
  predicate FreshHeader(e: Email) {
    && e.subject != ""
    && e.from != ""
    && e.body == "" && e.htmlBody == "" && e.textBody == "" && e.contentType == ""
  }

  /** The `Email` one fetched record with an envelope becomes. */
  function ToEmail(m: FetchedMessage): (e: Email)
    requires m.envelope.Some?
    ensures FreshHeader(e)
    ensures e.uid == m.uid && e.date == m.envelope.value.date
    ensures e.seen <==> SeenFlag in m.flags
    ensures m.envelope.value.subject != "" ==> e.subject == m.envelope.value.subject
    ensures m.envelope.value.subject == "" ==> e.subject == NoSubject
    ensures e.from == DisplayAddress(m.envelope.value.from, UnknownSender)
    ensures e.to == DisplayAddress(m.envelope.value.to, "")
  {
    var env := m.envelope.value;
    Email(
      m.uid,
      if env.subject == "" then NoSubject else env.subject,
      DisplayAddress(env.from, UnknownSender),
      DisplayAddress(env.to, ""),
      env.date,
      "", "", "", "",
      SeenFlag in m.flags)
  }

  /** The number of records whose envelope is not nil. */
  function EnvelopeCount(fetched: seq<FetchedMessage>): (c: nat)
    ensures c <= |fetched|
    ensures (forall i :: 0 <= i < |fetched| ==> fetched[i].envelope.Some?) ==> c == |fetched|
    ensures (forall i :: 0 <= i < |fetched| ==> fetched[i].envelope.None?) ==> c == 0
  {
    if fetched == [] then 0
    else
      var init := fetched[..|fetched| - 1];
      assert forall i :: 0 <= i < |init| ==> init[i] == fetched[i];
      EnvelopeCount(init) + (if fetched[|fetched| - 1].envelope.None? then 0 else 1)
  }

  /** The unsorted batch: one `Email` per record with an envelope, in arrival order;
      records whose envelope is nil are skipped. */
  function Batch(fetched: seq<FetchedMessage>): (r: seq<Email>)
    ensures |r| == EnvelopeCount(fetched)
    ensures |r| <= |fetched|
    ensures (forall i :: 0 <= i < |fetched| ==> fetched[i].envelope.Some?) ==> |r| == |fetched|
  {
    if fetched == [] then []
    else
      var init := fetched[..|fetched| - 1];
      var last := fetched[|fetched| - 1];
      Batch(init) + (if last.envelope.None? then [] else [ToEmail(last)])
  }

  /** Every entry of the batch is a fresh header made from one of the records. */
  lemma {:induction false} BatchEntries(fetched: seq<FetchedMessage>)
    ensures forall e :: e in Batch(fetched) ==> FreshHeader(e)
    ensures forall e :: e in Batch(fetched) ==>
      exists m :: m in fetched && m.envelope.Some? && e == ToEmail(m)
    decreases |fetched|
  {
    if fetched != [] {
      var init := fetched[..|fetched| - 1];
      assert forall m :: m in init ==> m in fetched;
      BatchEntries(init);
    }
  }

  lemma BatchSnoc(fetched: seq<FetchedMessage>, i: nat)
    requires i < |fetched|
    ensures Batch(fetched[..i + 1])
         == Batch(fetched[..i]) + (if fetched[i].envelope.None? then [] else [ToEmail(fetched[i])])
  {
    assert fetched[..i + 1][..i] == fetched[..i];
  }

  /** Every record with an envelope yields its own `Email`. */
  lemma {:induction false} BatchHasEveryEnvelope(fetched: seq<FetchedMessage>, i: nat)
    requires i < |fetched| && fetched[i].envelope.Some?
    ensures ToEmail(fetched[i]) in Batch(fetched)
  {
    if i < |fetched| - 1 {
      BatchHasEveryEnvelope(fetched[..|fetched| - 1], i);
    }
  }

  /** The record at index `i`, when it has an envelope, yields the batch entry whose
      position is the number of earlier records with an envelope: the batch keeps
      arrival order and holds nothing else. */
  lemma {:induction false} BatchPosition(fetched: seq<FetchedMessage>, i: nat)
    requires i < |fetched| && fetched[i].envelope.Some?
    ensures EnvelopeCount(fetched[..i]) < |Batch(fetched)|
    ensures Batch(fetched)[EnvelopeCount(fetched[..i])] == ToEmail(fetched[i])
    decreases |fetched|
  {
    var init := fetched[..|fetched| - 1];
    if i == |fetched| - 1 {
      assert fetched[..i] == init;
    } else {
      assert init[..i] == fetched[..i];
      BatchPosition(init, i);
    }
  }

  /** sort.Slice with `Date.After`: newest first. */
  predicate NewestFirst(s: seq<Email>) {
    forall i, j :: 0 <= i < j < |s| ==> s[i].date >= s[j].date
  }

  /** A message dated no earlier than the head of a newest-first sequence may go in front. */
  lemma NewestFirstCons(a: Email, t: seq<Email>)
    requires NewestFirst(t) && (t == [] || a.date >= t[0].date)
    ensures NewestFirst([a] + t)
  {
    var r := [a] + t;
    forall i, j | 0 <= i < j < |r|
      ensures r[i].date >= r[j].date
    {
      if i == 0 {
        assert r[j] == t[j - 1] && t[0].date >= t[j - 1].date;
      } else {
        assert r[i] == t[i - 1] && r[j] == t[j - 1];
      }
    }
  }

  /** Insert `e` into a newest-first sequence. */
  function Insert(e: Email, s: seq<Email>): (r: seq<Email>)
    requires NewestFirst(s)
    ensures NewestFirst(r)
    ensures multiset(r) == multiset(s) + multiset{e}
    ensures r[0] == e || (s != [] && r[0] == s[0])
  {
    if s == [] || e.date >= s[0].date then
      NewestFirstCons(e, s);
      [e] + s
    else
      var tail := Insert(e, s[1..]);
      assert s == [s[0]] + s[1..];
      assert tail[0].date <= s[0].date;
      NewestFirstCons(s[0], tail);
      [s[0]] + tail
  }

  /** The batch ordered newest first. Go's sort.Slice is not stable, so among messages
      with the same date any order may come out: the contract allows every such order. */
  function SortNewestFirst(s: seq<Email>): (r: seq<Email>)
    ensures NewestFirst(r)
    ensures multiset(r) == multiset(s)
  {
    if s == [] then []
    else
      assert s == [s[0]] + s[1..];
      Insert(s[0], SortNewestFirst(s[1..]))
  }

  /** The flag loop of fetchEmails: whether `flag` is among `flags`, stopping at the first hit. */
  method HasFlag(flags: seq<string>, flag: string) returns (found: bool)
    ensures found <==> flag in flags
  {
    found := false;
    var j := 0;
    while j < |flags|
      invariant 0 <= j <= |flags|
      invariant flag !in flags[..j]
    {
      if flags[j] == flag {
        found := true;
        return;
      }
      assert flags[..j + 1] == flags[..j] + [flags[j]];
      j := j + 1;
    }
    assert flags[..j] == flags;
  }

  /** The body of the fetch loop for a record with an envelope: the sender and first
      recipient for display, the seen flag, the subject or its placeholder. */
  method MakeEmail(m: FetchedMessage) returns (e: Email)
    requires m.envelope.Some?
    ensures e == ToEmail(m)
  {
    var env := m.envelope.value;
    var from := DisplayAddress(env.from, UnknownSender);
    var to := DisplayAddress(env.to, "");
    var seen := HasFlag(m.flags, SeenFlag);
    var subject := env.subject;
    if subject == "" {
      subject := NoSubject;
    }
    e := Email(m.uid, subject, from, to, env.date, "", "", "", "", seen);
  }

  /** What a page load hands back: the batch and the mailbox's message count. */
  datatype PageLoad = PageLoad(emails: seq<Email>, total: u32)

  /** One turn of fetchEmails' loop over the FETCH response: a record with an envelope
      adds its `Email` to the batch, a record without one is skipped. */
  method AppendRecord(emails: seq<Email>, fetched: seq<FetchedMessage>, i: nat) returns (r: seq<Email>)
    requires i < |fetched| && emails == Batch(fetched[..i])
    ensures r == Batch(fetched[..i + 1])
  {
    var m := fetched[i];
    BatchSnoc(fetched, i);
    r := emails;
    if m.envelope.Some? {
      var e := MakeEmail(m);
      r := r + [e];
    }
  }

  /**
   * fetchEmails: select INBOX (`selected` is its outcome: the message count, or the
   * error), compute the page's range, turn every fetched record with an envelope
   * into an `Email`, and sort the batch newest first. `request` is the FETCH issued.
   */
  method FetchEmails(selected: Result<u32, string>, page: int, perPage: int, fetched: seq<FetchedMessage>)
    returns (r: Result<PageLoad, string>, request: Option<SeqRange>)
    requires page >= 1 && perPage >= 1
    ensures selected.Failure? ==> r == Failure(selected.error) && request == None
    ensures selected == Success(0) ==> r == Success(PageLoad([], 0)) && request == None
    ensures selected.Success? && selected.value > 0 ==>
      && request == PageRange(selected.value, page, perPage)
      && r.Success? && r.value.total == selected.value
      && NewestFirst(r.value.emails)
      && multiset(r.value.emails) == multiset(if request.None? then [] else Batch(fetched))
  {
    if selected.Failure? {
      return Failure(selected.error), None;
    }
    var total := selected.value;
    if total == 0 {
      return Success(PageLoad([], 0)), None;
    }
    request := PageRange(total, page, perPage);
    if request.None? {
      return Success(PageLoad([], total)), request;
    }
    var emails: seq<Email> := [];
    var i := 0;
    while i < |fetched|
      invariant 0 <= i <= |fetched|
      invariant emails == Batch(fetched[..i])
    {
      emails := AppendRecord(emails, fetched, i);
      i := i + 1;
    }
    assert fetched[..i] == fetched;
    emails := SortNewestFirst(emails);
    r := Success(PageLoad(emails, total));
  }
}
