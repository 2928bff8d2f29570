/**
 * The community board's client-side state: the fields the page component
 * keeps and the handlers that change them.
 *
 * Every call to the discussion store is represented by its outcome, given
 * as a parameter (`true`/`false` for a write, `Some(list)`/`None` for a
 * list fetch), and every request the client issues is appended to `sent`,
 * so that "no request", "exactly one DELETE for the stored id" and "the
 * list is reloaded" are statements about that log. Each handler runs to
 * completion before the next one starts.
 */
module DiscussionView {
  import opened Basics
  import opened DiscussionStore

  /** The question form's two input buffers. */
  datatype Draft = Draft(title: string, content: string)

  /** A request the client sends to the discussion store. */
  datatype Request =
    | ListDiscussions
    | PostDiscussion(title: string, content: string)
    | PostReply(discussionId: Id, content: string, author: string)
    | DeleteDiscussion(id: Id)

  /** All fields of the component at once, for stating whole new states. */
  datatype ViewState = ViewState(
    discussions: seq<Discussion>, newDiscussion: Draft, newReply: string,
    replyingTo: Option<Id>, showDeleteConfirm: Option<Id>, theme: string,
    sent: seq<Request>)

  // ---------------------------------------------------------------------
  // String.prototype.trim
  // ---------------------------------------------------------------------

  /** The characters `trim` strips: ECMAScript WhiteSpace and LineTerminator. */
  predicate IsJsWhiteSpace(c: char) {
    c == ' ' || c == '\t' || c == '\n' || c == '\r' || c == '\U{B}' || c == '\U{C}' ||
    c == '\U{A0}' || c == '\U{1680}' || ('\U{2000}' <= c <= '\U{200A}') ||
    c == '\U{2028}' || c == '\U{2029}' || c == '\U{202F}' || c == '\U{205F}' ||
    c == '\U{3000}' || c == '\U{FEFF}'
  }

  predicate Blank(s: string) {
    forall i :: 0 <= i < |s| ==> IsJsWhiteSpace(s[i])
  }

  function TrimStart(s: string): (r: string)
    ensures r == [] || !IsJsWhiteSpace(r[0])
  {
    if s != [] && IsJsWhiteSpace(s[0]) then TrimStart(s[1..]) else s
  }

  function TrimEnd(s: string): string {
    if s != [] && IsJsWhiteSpace(s[|s| - 1]) then TrimEnd(s[..|s| - 1]) else s
  }

  function Trim(s: string): string {
    TrimEnd(TrimStart(s))
  }

  lemma {:induction false} TrimStartEmptyIffBlank(s: string)
    ensures TrimStart(s) == [] <==> Blank(s)
  {
    if s != [] && IsJsWhiteSpace(s[0]) {
      TrimStartEmptyIffBlank(s[1..]);
      assert Blank(s) <==> Blank(s[1..]);
    }
  }

  lemma {:induction false} TrimEndKeepsNonBlankHead(s: string)
    requires s != [] && !IsJsWhiteSpace(s[0])
    ensures TrimEnd(s) != []
  {
    if IsJsWhiteSpace(s[|s| - 1]) {
      TrimEndKeepsNonBlankHead(s[..|s| - 1]);
    }
  }

  /** `!s.trim()` holds exactly for the strings made only of white space. */
  lemma TrimEmptyIffBlank(s: string)
    ensures Trim(s) == "" <==> Blank(s)
  {
    TrimStartEmptyIffBlank(s);
    if TrimStart(s) != [] {
      TrimEndKeepsNonBlankHead(TrimStart(s));
    }
  }

  // ---------------------------------------------------------------------
  // Theme and dialogs
  // ---------------------------------------------------------------------

  /** `theme === 'light' ? 'dark' : 'light'` */
  function Toggled(theme: string): string {
    if theme == "light" then "dark" else "light"
  }

  /** Toggling twice restores exactly the two themes the page sets. */
  lemma ToggleTwice(theme: string)
    ensures Toggled(theme) == "light" || Toggled(theme) == "dark"
    ensures Toggled(Toggled(theme)) == theme <==> theme == "light" || theme == "dark"
  {
  }

  /** The reply form under discussion `d` is rendered. */
  predicate ReplyFormShown(replyingTo: Option<Id>, d: Discussion) {
    replyingTo == Some(d.id)
  }

  /** The delete confirmation dialog is open. */
  predicate DeleteDialogOpen(showDeleteConfirm: Option<Id>) {
    showDeleteConfirm.Some?
  }

  /** Positions of the discussions whose reply form is rendered. */
  function OpenReplyForms(ds: seq<Discussion>, replyingTo: Option<Id>): set<nat> {
    set i: nat | i < |ds| && ReplyFormShown(replyingTo, ds[i])
  }

  /** With distinct ids (as the store hands them out) at most one reply
      form is open, it is the one under the discussion `replyingTo` names,
      and none is open when `replyingTo` is null or names no listed
      discussion. */
  lemma AtMostOneReplyForm(ds: seq<Discussion>, replyingTo: Option<Id>)
    requires UniqueDiscussionIds(ds)
    ensures |OpenReplyForms(ds, replyingTo)| <= 1
    ensures forall i :: 0 <= i < |ds| && replyingTo == Some(ds[i].id) ==>
      OpenReplyForms(ds, replyingTo) == {i}
    ensures (forall i :: 0 <= i < |ds| ==> Some(ds[i].id) != replyingTo) ==>
      OpenReplyForms(ds, replyingTo) == {}
  {
    var open := OpenReplyForms(ds, replyingTo);
    if open != {} {
      var i :| i in open;
      assert open == {i};
    }
  }

  // ---------------------------------------------------------------------
  // The component
  // ---------------------------------------------------------------------

  class KaMaTi {
    var discussions: seq<Discussion>
    var newDiscussion: Draft
    var newReply: string
    var replyingTo: Option<Id>
    var showDeleteConfirm: Option<Id>
    var theme: string
    /** Requests issued to the store, oldest first. */
    var sent: seq<Request>

    function State(): ViewState
      reads this
    {
      ViewState(discussions, newDiscussion, newReply, replyingTo, showDeleteConfirm, theme, sent)
    }

    /** The initial `useState` values. */
    constructor ()
      ensures State() == ViewState([], Draft("", ""), "", None, None, "dark", [])
    {
      discussions, newDiscussion, newReply := [], Draft("", ""), "";
      replyingTo, showDeleteConfirm, theme, sent := None, None, "dark", [];
    }

    /** `loadDiscussions`: the list is replaced wholesale by the response,
        or left as it was when the fetch fails. */
    method LoadDiscussions(response: Option<seq<Discussion>>)
      modifies this
      ensures State() == old(State()).(
        discussions := if response.Some? then response.value else old(discussions),
        sent := old(sent) + [ListDiscussions])
    {
      sent := sent + [ListDiscussions];
      if response.Some? {
        discussions := response.value;
      }
    }

    /** The effect run on mount and after every theme change: it returns
        before loading anything unless feedback was already submitted. */
    method ThemeEffect(feedbackSubmitted: bool, response: Option<seq<Discussion>>)
      modifies this
      ensures !feedbackSubmitted ==> State() == old(State())
      ensures feedbackSubmitted ==> State() == old(State()).(
        discussions := if response.Some? then response.value else old(discussions),
        sent := old(sent) + [ListDiscussions])
    {
      if !feedbackSubmitted {
        return;
      }
      LoadDiscussions(response);
    }

    /** `toggleTheme` */
    method ToggleTheme()
      modifies this
      ensures State() == old(State()).(theme := Toggled(old(theme)))
    {
      theme := Toggled(theme);
    }

    /** Typing in the question title input. */
    method EditTitle(text: string)
      modifies this
      ensures State() == old(State()).(newDiscussion := old(newDiscussion).(title := text))
    {
      newDiscussion := newDiscussion.(title := text);
    }

    /** Typing in the question content area. */
    method EditContent(text: string)
      modifies this
      ensures State() == old(State()).(newDiscussion := old(newDiscussion).(content := text))
    {
      newDiscussion := newDiscussion.(content := text);
    }

    /** `createDiscussion`: nothing at all happens while the title or the
        content is blank; otherwise the buffers as typed are posted, and
        only a successful post clears them and reloads the list. */
    method CreateDiscussion(posted: bool, response: Option<seq<Discussion>>)
      modifies this
      ensures Blank(old(newDiscussion).title) || Blank(old(newDiscussion).content) ==>
        State() == old(State())
      ensures !Blank(old(newDiscussion).title) && !Blank(old(newDiscussion).content) && posted ==>
        State() == old(State()).(
          newDiscussion := Draft("", ""),
          discussions := if response.Some? then response.value else old(discussions),
          sent := old(sent) + [PostDiscussion(old(newDiscussion).title, old(newDiscussion).content), ListDiscussions])
      ensures !Blank(old(newDiscussion).title) && !Blank(old(newDiscussion).content) && !posted ==>
        State() == old(State()).(
          sent := old(sent) + [PostDiscussion(old(newDiscussion).title, old(newDiscussion).content)])
    {
      TrimEmptyIffBlank(newDiscussion.title);
      TrimEmptyIffBlank(newDiscussion.content);
      if Trim(newDiscussion.title) == "" || Trim(newDiscussion.content) == "" {
        return;
      }
      sent := sent + [PostDiscussion(newDiscussion.title, newDiscussion.content)];
      if posted {
        newDiscussion := Draft("", "");
        LoadDiscussions(response);
      }
    }

    /** Typing in an open reply form. */
    method EditReply(text: string)
      modifies this
      ensures State() == old(State()).(newReply := text)
    {
      newReply := text;
    }

    /** The Reply button of discussion `did`: closes that discussion's form
        if it is the open one, opens it otherwise. The reply buffer is kept
        either way, so text typed under one discussion follows to the next. */
    method ClickReply(did: Id)
      modifies this
      ensures State() == old(State()).(
        replyingTo := if old(replyingTo) == Some(did) then None else Some(did))
      ensures replyingTo.Some? <==> old(replyingTo) != Some(did)
    {
      replyingTo := if replyingTo == Some(did) then None else Some(did);
    }

    /** The Cancel button of the reply form. */
    method CancelReply()
      modifies this
      ensures State() == old(State()).(replyingTo := None, newReply := "")
    {
      replyingTo := None;
      newReply := "";
    }

    /** `createReply(did)`: nothing happens while the buffer is blank;
        otherwise the untrimmed buffer is posted as "Anonymous", and only a
        successful post clears the buffer, closes the form and reloads. */
    method CreateReply(did: Id, posted: bool, response: Option<seq<Discussion>>)
      modifies this
      ensures Blank(old(newReply)) ==> State() == old(State())
      ensures !Blank(old(newReply)) && posted ==>
        State() == old(State()).(
          newReply := "", replyingTo := None,
          discussions := if response.Some? then response.value else old(discussions),
          sent := old(sent) + [PostReply(did, old(newReply), ANONYMOUS), ListDiscussions])
      ensures !Blank(old(newReply)) && !posted ==>
        State() == old(State()).(sent := old(sent) + [PostReply(did, old(newReply), ANONYMOUS)])
    {
      TrimEmptyIffBlank(newReply);
      if Trim(newReply) == "" {
        return;
      }
      sent := sent + [PostReply(did, newReply, ANONYMOUS)];
      if posted {
        newReply := "";
        replyingTo := None;
        LoadDiscussions(response);
      }
    }

    /** The trash button of discussion `did`: opens the confirmation dialog
        for it and sends nothing. */
    method ClickDelete(did: Id)
      modifies this
      ensures State() == old(State()).(showDeleteConfirm := Some(did))
      ensures DeleteDialogOpen(showDeleteConfirm)
    {
      showDeleteConfirm := Some(did);
    }

    /** The dialog's Cancel button, and closing the dialog: sends nothing. */
    method CancelDelete()
      modifies this
      ensures State() == old(State()).(showDeleteConfirm := None)
      ensures !DeleteDialogOpen(showDeleteConfirm)
    {
      showDeleteConfirm := None;
    }

    /** `deleteDiscussion(did)`: on success the list is reloaded and the
        dialog closed; on failure nothing but the request changes, so the
        dialog stays open. */
    method DeleteDiscussion(did: Id, deleted: bool, response: Option<seq<Discussion>>)
      modifies this
      ensures deleted ==> State() == old(State()).(
        discussions := if response.Some? then response.value else old(discussions),
        showDeleteConfirm := None,
        sent := old(sent) + [Request.DeleteDiscussion(did), ListDiscussions])
      ensures !deleted ==> State() == old(State()).(
        sent := old(sent) + [Request.DeleteDiscussion(did)])
    {
      sent := sent + [Request.DeleteDiscussion(did)];
      if deleted {
        LoadDiscussions(response);
        showDeleteConfirm := None;
      }
    }

    /** The dialog's Delete button, which exists only while the dialog is
        open: one DELETE, for exactly the discussion the dialog was opened
        for. */
    method ConfirmDelete(deleted: bool, response: Option<seq<Discussion>>)
      requires DeleteDialogOpen(showDeleteConfirm)
      modifies this
      ensures |sent| > |old(sent)| && sent[..|old(sent)|] == old(sent)
      ensures sent[|old(sent)|] == Request.DeleteDiscussion(old(showDeleteConfirm).value)
      ensures DeleteDialogOpen(showDeleteConfirm) <==> !deleted
      ensures deleted ==> State() == old(State()).(
        discussions := if response.Some? then response.value else old(discussions),
        showDeleteConfirm := None,
        sent := old(sent) + [Request.DeleteDiscussion(old(showDeleteConfirm).value), ListDiscussions])
      ensures !deleted ==> State() == old(State()).(
        sent := old(sent) + [Request.DeleteDiscussion(old(showDeleteConfirm).value)])
    {
      DeleteDiscussion(showDeleteConfirm.value, deleted, response);
    }
  }
}
