/**
 * The inbox browser's state machine, `App.Update`: how page loads, body loads,
 * errors and the enter, esc/backspace, r and quit keys change the application
 * state and which command they issue. Commands are values; running them (the
 * IMAP session) is not part of this model. The list widget's selected index is
 * an input.
 */
module Browser {
  import opened Wrappers
  import opened Pagination
  import opened Inbox
  import opened MimeBody

  /** Which screen is showing. */
  datatype ViewState = ListView | EmailView

  /** One row of the list widget: a message, or the "Load More" row at the end. */
  datatype ListItem = MessageItem(email: Email) | LoadMoreItem

  /** What an event asks the runtime to do next. */
  datatype Command = NoCommand | LoadPage(page: int, isLoadMore: bool) | LoadBody(uid: u32) | Quit

  /** The events `Update` reacts to. A window resize only lays out the widgets. */
  datatype Msg =
    | EmailsLoaded(batch: seq<Email>, total: u32, isLoadMore: bool)
    | BodyLoaded(uid: u32, body: BodyFields)
    | ErrorMsg(reason: string)
    | KeyPress(key: string)
    | WindowSize(width: int, height: int)

  /** updateEmailList: every message in order, followed by exactly one "Load More" row
      iff more messages remain, so len(emails) + (hasMore ? 1 : 0) rows. */
  function ListItems(emails: seq<Email>, hasMore: bool): (items: seq<ListItem>)
    ensures |items| == |emails| + (if hasMore then 1 else 0)
    ensures forall i :: 0 <= i < |emails| ==> items[i] == MessageItem(emails[i])
    ensures LoadMoreItem in items <==> hasMore
    ensures hasMore ==> items[|items| - 1] == LoadMoreItem
  {
    var rows := seq(|emails|, i requires 0 <= i < |emails| => MessageItem(emails[i]));
    if hasMore then
      assert (rows + [LoadMoreItem])[|emails|] == LoadMoreItem;
      rows + [LoadMoreItem]
    else
      assert forall i :: 0 <= i < |rows| ==> rows[i] == MessageItem(emails[i]);
      rows
  }

  /** The fields of a list entry that a body load never touches. */
  predicate SameHeader(a: Email, b: Email) {
    a.uid == b.uid && a.subject == b.subject && a.from == b.from && a.to == b.to
    && a.date == b.date && a.seen == b.seen
  }

  /** A message with its four body fields set from a body load. */
  function WithBody(e: Email, body: BodyFields): (r: Email)
    ensures SameHeader(r, e)
    ensures r.body == body.body && r.htmlBody == body.htmlBody
    ensures r.textBody == body.textBody && r.contentType == body.contentType
  {
    e.(body := body.body, htmlBody := body.htmlBody, textBody := body.textBody,
       contentType := body.contentType)
  }

  /** The position of the first message with the given UID, if any. */
  function FirstWithUid(emails: seq<Email>, uid: u32): (r: Option<nat>)
    ensures r.None? <==> forall k :: 0 <= k < |emails| ==> emails[k].uid != uid
    ensures r.Some? ==> r.value < |emails| && emails[r.value].uid == uid
    ensures r.Some? ==> forall k :: 0 <= k < r.value ==> emails[k].uid != uid
    decreases |emails|
  {
    if emails == [] then None
    else if emails[0].uid == uid then Some(0)
    else
      match FirstWithUid(emails[1..], uid)
      case None => None
      case Some(i) => Some(i + 1)
  }

  /** What a body load does to the message list: only the first message with the UID
      changes, and of that message only the body fields; every header stays, every other
      message stays as it was, and with no message of that UID nothing changes. */
  function ApplyBody(emails: seq<Email>, uid: u32, body: BodyFields): (r: seq<Email>)
    ensures |r| == |emails|
    ensures forall k :: 0 <= k < |r| ==> SameHeader(r[k], emails[k])
    ensures forall k :: 0 <= k < |r| && emails[k].uid != uid ==> r[k] == emails[k]
    ensures forall j, k :: 0 <= j < k < |r| && emails[j].uid == uid ==> r[k] == emails[k]
    ensures (forall k :: 0 <= k < |emails| ==> emails[k].uid != uid) ==> r == emails
    ensures forall i :: FirstWithUid(emails, uid) == Some(i) ==> r[i] == WithBody(emails[i], body)
  {
    match FirstWithUid(emails, uid)
    case None => emails
    case Some(i) => emails[i := WithBody(emails[i], body)]
  }

  /** The application state. `items` is what the list widget holds: copies of the messages
      made at the last page load, so a body load changes `emails` but not `items`. */
  class App {
    var emails: seq<Email>
    var items: seq<ListItem>
    var loading: bool
    var loadingMore: bool
    var err: Option<string>
    var state: ViewState
    var totalMessages: u32
    var currentPage: int
    var hasMore: bool

    /** The list rows line up with the messages, the "Load More" row is there iff more
        remain, and hasMore compares the loaded count (as a uint32) with the total. */
    predicate Valid()
      reads this
    {
      && currentPage >= 1
      && hasMore == (Wrap(|emails|) < totalMessages)
      && |items| == |emails| + (if hasMore then 1 else 0)
      && (forall i :: 0 <= i < |emails| ==> items[i].MessageItem? && SameHeader(items[i].email, emails[i]))
      && (hasMore ==> items[|emails|] == LoadMoreItem)
    }

    /** NewApp: nothing loaded yet, a load under way, list view, page 1. */
    constructor ()
      ensures Valid()
      ensures emails == [] && items == [] && loading && !loadingMore && err == None
      ensures state == ListView && totalMessages == 0 && currentPage == 1 && !hasMore
    {
      emails := [];
      items := [];
      loading := true;
      loadingMore := false;
      err := None;
      state := ListView;
      totalMessages := 0;
      currentPage := 1;
      hasMore := false;
    }

    /** Init: load the first page. */
    method Init() returns (cmd: Command)
      ensures cmd == LoadPage(1, false)
    {
      cmd := LoadPage(1, false);
    }

    /** updateEmailList: rebuild the list rows from the messages. */
    method UpdateEmailList()
      modifies this
      ensures items == ListItems(emails, hasMore)
      ensures emails == old(emails) && hasMore == old(hasMore) && loading == old(loading)
      ensures loadingMore == old(loadingMore) && err == old(err) && state == old(state)
      ensures totalMessages == old(totalMessages) && currentPage == old(currentPage)
    {
      var rows := new ListItem[|emails|](_ => LoadMoreItem);
      for i := 0 to rows.Length
        modifies rows
        invariant forall k :: 0 <= k < i ==> rows[k] == MessageItem(emails[k])
      {
        rows[i] := MessageItem(emails[i]);
      }
      items := rows[..];
      if hasMore {
        items := items + [LoadMoreItem];
      }
    }

    /** An emails-loaded event: both loading flags drop, the total is taken over, the batch
        is appended (load more) or replaces the list, and the rows are rebuilt. */
    twostate predicate EmailsLoadedDone(batch: seq<Email>, total: u32, isLoadMore: bool)
      reads this
    {
      && !loading && !loadingMore && totalMessages == total
      && (isLoadMore ==> emails == old(emails) + batch)
      && (!isLoadMore ==> emails == batch)
      && hasMore == (Wrap(|emails|) < total)
      && items == ListItems(emails, hasMore)
      && state == old(state) && currentPage == old(currentPage) && err == old(err)
    }

    method HandleEmailsLoaded(batch: seq<Email>, total: u32, isLoadMore: bool)
      requires Valid()
      modifies this
      ensures Valid()
      ensures EmailsLoadedDone(batch, total, isLoadMore)
    {
      loading := false;
      loadingMore := false;
      totalMessages := total;
      if isLoadMore {
        emails := emails + batch;
      } else {
        emails := batch;
      }
      hasMore := Wrap(|emails|) < totalMessages;
      UpdateEmailList();
    }

    /** A body-loaded event: the first message with the UID gets the new body fields, and
        nothing else changes (the list rows keep their old copies). */
    twostate predicate BodyLoadedDone(uid: u32, body: BodyFields)
      reads this
    {
      && emails == ApplyBody(old(emails), uid, body)
      && items == old(items) && hasMore == old(hasMore) && loading == old(loading)
      && loadingMore == old(loadingMore) && err == old(err) && state == old(state)
      && totalMessages == old(totalMessages) && currentPage == old(currentPage)
    }

    /** The search loop stops at the first message with the UID and overwrites its four
        body fields. */
    method HandleBodyLoaded(uid: u32, body: BodyFields)
      requires Valid()
      modifies this
      ensures Valid()
      ensures BodyLoadedDone(uid, body)
    {
      var i := 0;
      while i < |emails|
        invariant 0 <= i <= |emails| && emails == old(emails)
        invariant forall k :: 0 <= k < i ==> emails[k].uid != uid
      {
        if emails[i].uid == uid {
          assert FirstWithUid(emails, uid) == Some(i);
          emails := emails[i := WithBody(emails[i], body)];
          break;
        }
        i := i + 1;
      }
    }

    /** An error event: the error is kept, both loading flags drop, nothing else changes. */
    twostate predicate ErrorDone(reason: string)
      reads this
    {
      && err == Some(reason) && !loading && !loadingMore
      && emails == old(emails) && items == old(items) && hasMore == old(hasMore)
      && state == old(state) && totalMessages == old(totalMessages) && currentPage == old(currentPage)
    }

    method HandleError(reason: string)
      requires Valid()
      modifies this
      ensures Valid()
      ensures ErrorDone(reason)
    {
      err := Some(reason);
      loading := false;
      loadingMore := false;
    }

    /**
     * The enter key with row `index` selected. On the "Load More" row it starts loading
     * the next page unless a load-more is already running. On a message it opens the
     * email view, and asks for the body when the message has none yet. The messages,
     * rows, totals, error and page-load flag stay as they were.
     */
    twostate predicate EnterDone(index: nat, cmd: Command)
      reads this
    {
      && emails == old(emails) && items == old(items) && hasMore == old(hasMore)
      && loading == old(loading) && err == old(err) && totalMessages == old(totalMessages)
      && (old(state) == ListView && index < |items| && items[index] == LoadMoreItem ==>
            if old(loadingMore) then
              cmd == NoCommand && loadingMore && currentPage == old(currentPage) && state == ListView
            else
              cmd == LoadPage(old(currentPage) + 1, true) && loadingMore
              && currentPage == old(currentPage) + 1 && state == ListView)
      && (old(state) == ListView && index < |emails| ==>
            && state == EmailView && loadingMore == old(loadingMore) && currentPage == old(currentPage)
            && (cmd == LoadBody(emails[index].uid) <==> emails[index].body == "")
            && (emails[index].body != "" ==> cmd == NoCommand))
      && (old(state) == EmailView || index >= |items| ==>
            cmd == NoCommand && state == old(state) && loadingMore == old(loadingMore)
            && currentPage == old(currentPage))
    }

    method HandleEnter(index: nat) returns (cmd: Command)
      requires Valid()
      modifies this
      ensures Valid()
      ensures EnterDone(index, cmd)
    {
      cmd := NoCommand;
      if state == ListView && index < |items| {
        if items[index] == LoadMoreItem {
          if !loadingMore {
            loadingMore := true;
            currentPage := currentPage + 1;
            cmd := LoadPage(currentPage, true);
          }
          return;
        }
        if index < |emails| {
          var selected := emails[index];
          state := EmailView;
          if selected.body == "" {
            cmd := LoadBody(selected.uid);
          }
        }
      }
    }

    /** esc or backspace: back from the email view to the list; nothing else changes. */
    twostate predicate BackDone()
      reads this
    {
      && state == ListView
      && emails == old(emails) && items == old(items) && hasMore == old(hasMore)
      && loading == old(loading) && loadingMore == old(loadingMore) && err == old(err)
      && totalMessages == old(totalMessages) && currentPage == old(currentPage)
    }

    method HandleBack()
      requires Valid()
      modifies this
      ensures Valid()
      ensures BackDone()
    {
      if state == EmailView {
        state := ListView;
      }
    }

    /** r: reload from the first page, only in the list view and when no load is running. */
    twostate predicate RefreshDone(cmd: Command)
      reads this
    {
      && (old(state) == ListView && !old(loading) ==>
            cmd == LoadPage(1, false) && loading && currentPage == 1)
      && (old(state) == EmailView || old(loading) ==>
            cmd == NoCommand && loading == old(loading) && currentPage == old(currentPage))
      && emails == old(emails) && items == old(items) && hasMore == old(hasMore)
      && state == old(state) && loadingMore == old(loadingMore) && err == old(err)
      && totalMessages == old(totalMessages)
    }

    method HandleRefresh() returns (cmd: Command)
      requires Valid()
      modifies this
      ensures Valid()
      ensures RefreshDone(cmd)
    {
      cmd := NoCommand;
      if state == ListView && !loading {
        loading := true;
        currentPage := 1;
        cmd := LoadPage(1, false);
      }
    }

    /**
     * Update: dispatch one event to its handler. `index` is the list widget's selected
     * row. Quit, keys other than the ones handled here, and window resizes change none of
     * the modelled state.
     */
    method Update(msg: Msg, index: nat) returns (cmd: Command)
      requires Valid()
      modifies this
      ensures Valid()
      ensures msg.EmailsLoaded? ==> cmd == NoCommand && EmailsLoadedDone(msg.batch, msg.total, msg.isLoadMore)
      ensures msg.BodyLoaded? ==> cmd == NoCommand && BodyLoadedDone(msg.uid, msg.body)
      ensures msg.ErrorMsg? ==> cmd == NoCommand && ErrorDone(msg.reason)
      ensures msg.KeyPress? && (msg.key == "ctrl+c" || msg.key == "q") ==> cmd == Quit && unchanged(this)
      ensures msg.KeyPress? && msg.key == "enter" ==> EnterDone(index, cmd)
      ensures msg.KeyPress? && (msg.key == "esc" || msg.key == "backspace") ==> cmd == NoCommand && BackDone()
      ensures msg.KeyPress? && msg.key == "r" ==> RefreshDone(cmd)
      ensures msg.KeyPress? && msg.key !in ["ctrl+c", "q", "enter", "esc", "backspace", "r"] ==>
        cmd == NoCommand && unchanged(this)
      ensures msg.WindowSize? ==> cmd == NoCommand && unchanged(this)
    {
      cmd := NoCommand;
      match msg {
        case EmailsLoaded(batch, total, isLoadMore) =>
          HandleEmailsLoaded(batch, total, isLoadMore);
        case BodyLoaded(uid, body) =>
          HandleBodyLoaded(uid, body);
        case ErrorMsg(reason) =>
          HandleError(reason);
        case KeyPress(key) =>
          if key == "ctrl+c" || key == "q" {
            cmd := Quit;
          } else if key == "enter" {
            cmd := HandleEnter(index);
          } else if key == "esc" || key == "backspace" {
            HandleBack();
          } else if key == "r" {
            cmd := HandleRefresh();
          }
        case WindowSize(_, _) =>
      }
    }
  }
}
