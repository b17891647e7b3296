/**
 * The messages page of the client: a search over the list, marking a
 * message read when it is opened, composing and sending a message, replying
 * and deleting.
 */
module MessagesPage {
  import opened Wrappers
  import Text
  import Seqs

  /** A message; `timestamp` is a point in time in milliseconds. */
  datatype Message = Message(
    id: string,
    senderId: string,
    senderName: string,
    receiverId: string,
    receiverName: string,
    subject: string,
    content: string,
    timestamp: int,
    read: bool,
    parentId: Option<string>)

  /** The message being composed. */
  datatype Draft = Draft(to: string, subject: string, content: string)

  const EmptyDraft := Draft("", "", "")

  datatype DraftField = To | Subject | Content

  // ---- filteredMessages ----------------------------------------------------

  /** The query, lower-cased, occurs in the lower-cased sender name, subject
      or content. */
  predicate MatchesSearch(m: Message, query: string) {
    || Text.IncludesIgnoringCase(m.senderName, query)
    || Text.IncludesIgnoringCase(m.subject, query)
    || Text.IncludesIgnoringCase(m.content, query)
  }

  function Keep(query: string): Message -> bool {
    m => MatchesSearch(m, query)
  }

  function FilteredMessages(messages: seq<Message>, query: string): seq<Message> {
    Seqs.Filter(messages, Keep(query))
  }

  /** A message is listed exactly when it is in the list and matches the
      search, and the listed messages keep the order of the list. */
  lemma FilteredMembership(messages: seq<Message>, query: string, m: Message)
    ensures m in FilteredMessages(messages, query) <==> m in messages && MatchesSearch(m, query)
    ensures Seqs.IsSubsequence(FilteredMessages(messages, query), messages)
  {
    Seqs.FilterMembership(messages, Keep(query), m);
    Seqs.FilterIsSubsequence(messages, Keep(query));
  }

  /** An empty search lists every message. */
  lemma NothingFiltered(messages: seq<Message>)
    ensures FilteredMessages(messages, "") == messages
  {
    forall i | 0 <= i < |messages| ensures Keep("")(messages[i]) {
      Text.EmptyIncluded(Text.Lower(messages[i].senderName));
      assert Text.Lower("") == "";
    }
    Seqs.FilterKeepsAll(messages, Keep(""));
  }

  // ---- list updates --------------------------------------------------------

  /** `prev.map(m => m.id === id ? { ...m, read: true } : m)`: the messages
      with that id become read, nothing else changes. */
  function MarkRead(messages: seq<Message>, id: string): (r: seq<Message>)
    ensures |r| == |messages|
    ensures forall i :: 0 <= i < |messages| && messages[i].id != id ==> r[i] == messages[i]
    ensures forall i :: 0 <= i < |messages| && messages[i].id == id ==> r[i] == messages[i].(read := true)
  {
    Seqs.Map(messages, (m: Message) => if m.id == id then m.(read := true) else m)
  }

  /** Marking a message read twice is the same as once. */
  lemma {:induction false} MarkReadIdempotent(messages: seq<Message>, id: string)
    ensures MarkRead(MarkRead(messages, id), id) == MarkRead(messages, id)
  {
    var once := MarkRead(messages, id);
    var twice := MarkRead(once, id);
    forall i | 0 <= i < |messages| ensures twice[i] == once[i] {
      assert once[i].id == messages[i].id;
    }
  }

  /** After marking, every message with that id is read. */
  lemma MarkReadMarks(messages: seq<Message>, id: string, m: Message)
    requires m in MarkRead(messages, id) && m.id == id
    ensures m.read
  {
    var r := MarkRead(messages, id);
    var i :| 0 <= i < |r| && r[i] == m;
    assert messages[i].id == id;
  }

  /** `prev.filter(m => m.id !== id)` */
  function RemoveById(messages: seq<Message>, id: string): seq<Message> {
    Seqs.Filter(messages, (m: Message) => m.id != id)
  }

  /** Deleting removes exactly the messages with that id and keeps the order
      of the rest. */
  lemma RemoveByIdEffect(messages: seq<Message>, id: string, m: Message)
    ensures m in RemoveById(messages, id) <==> m in messages && m.id != id
    ensures Seqs.IsSubsequence(RemoveById(messages, id), messages)
  {
    Seqs.FilterMembership(messages, (m: Message) => m.id != id, m);
    Seqs.FilterIsSubsequence(messages, (m: Message) => m.id != id);
  }

  // ---- composing -----------------------------------------------------------

  /** `!to || !subject || !content` is false: every field is filled in. */
  predicate DraftComplete(d: Draft) {
    d.to != "" && d.subject != "" && d.content != ""
  }

  /** `newMessage[field]` */
  function DraftValue(d: Draft, field: DraftField): string {
    match field
    case To => d.to
    case Subject => d.subject
    case Content => d.content
  }

  /** `{ ...prev, [field]: value }`: the field reads `value` and every other
      field reads as before. */
  function WithDraftField(d: Draft, field: DraftField, value: string): (r: Draft)
    ensures forall k :: DraftValue(r, k) == if k == field then value else DraftValue(d, k)
  {
    match field
    case To => d.(to := value)
    case Subject => d.(subject := value)
    case Content => d.(content := value)
  }

  /** The message a send creates: from the signed-in user (`1`, `John Doe`)
      to receiver `2` under the name typed in the draft, already read. */
  function Outgoing(d: Draft, id: string, now: int): (r: Message)
    ensures r.receiverName == d.to && r.subject == d.subject && r.content == d.content
    ensures r.read && r.parentId.None?
  {
    Message(id, "1", "John Doe", "2", d.to, d.subject, d.content, now, true, None)
  }

  /** The reply draft: addressed to the sender, the subject prefixed with
      `Re: `, and no content. */
  function ReplyDraft(m: Message): (r: Draft)
    ensures r.to == m.senderName && r.content == ""
    ensures |r.subject| == |m.subject| + 4
    ensures Text.StartsWith(r.subject, "Re: ") && r.subject[4..] == m.subject
  {
    Draft(m.senderName, "Re: " + m.subject, "")
  }

  // ---- the page's state ----------------------------------------------------

  /** All of the page's state, to state each handler's effect in one place. */
  datatype PageState = PageState(
    messages: seq<Message>,
    selectedMessage: Option<Message>,
    showCompose: bool,
    searchQuery: string,
    showDeleteConfirm: bool,
    messageToDelete: Option<Message>,
    newMessage: Draft)

  class MessagesView {
    var messages: seq<Message>
    var selectedMessage: Option<Message>
    var showCompose: bool
    var searchQuery: string
    var showDeleteConfirm: bool
    var messageToDelete: Option<Message>
    var newMessage: Draft

    function State(): PageState
      reads this
    {
      PageState(messages, selectedMessage, showCompose, searchQuery,
                showDeleteConfirm, messageToDelete, newMessage)
    }

    /** `filteredMessages` */
    function Listed(): seq<Message>
      reads this
    {
      FilteredMessages(messages, searchQuery)
    }

    /** The page starts with the given messages, nothing selected, no query
        and an empty draft. */
    constructor(initial: seq<Message>)
      ensures State() == PageState(initial, None, false, "", false, None, EmptyDraft)
      ensures Listed() == initial
    {
      messages := initial;
      selectedMessage := None;
      showCompose := false;
      searchQuery := "";
      showDeleteConfirm := false;
      messageToDelete := None;
      newMessage := EmptyDraft;
      NothingFiltered(initial);
    }

    method SetSearchQuery(query: string)
      modifies this
      ensures State() == old(State()).(searchQuery := query)
    {
      searchQuery := query;
    }

    /** Opening a message selects it and, when it is unread, marks the
        messages with its id read. */
    method HandleMessageSelect(m: Message)
      modifies this
      ensures State() == old(State()).(selectedMessage := Some(m),
        messages := if m.read then old(messages) else MarkRead(old(messages), m.id))
    {
      selectedMessage := Some(m);
      if !m.read {
        messages := MarkRead(messages, m.id);
      }
    }

    /** The `Compose` button and the compose pane's `Cancel`. */
    method SetShowCompose(show: bool)
      modifies this
      ensures State() == old(State()).(showCompose := show)
    {
      showCompose := show;
    }

    /** Sending: with a field left empty nothing happens; otherwise the new
        message, with the given fresh id and time, goes in front, the draft is
        emptied and the compose pane closes. */
    method HandleSendMessage(freshId: string, now: int)
      modifies this
      ensures !DraftComplete(old(newMessage)) ==> State() == old(State())
      ensures DraftComplete(old(newMessage)) ==>
        State() == old(State()).(messages := [Outgoing(old(newMessage), freshId, now)] + old(messages),
                                 newMessage := EmptyDraft, showCompose := false)
    {
      if !DraftComplete(newMessage) {
        return;
      }
      var message := Outgoing(newMessage, freshId, now);
      messages := [message] + messages;
      newMessage := EmptyDraft;
      showCompose := false;
    }

    /** Replying opens the compose pane with the reply draft; with nothing
        selected nothing happens. */
    method HandleReply()
      modifies this
      ensures old(selectedMessage).None? ==> State() == old(State())
      ensures old(selectedMessage).Some? ==>
        State() == old(State()).(newMessage := ReplyDraft(old(selectedMessage).value), showCompose := true)
    {
      if selectedMessage.None? {
        return;
      }
      newMessage := ReplyDraft(selectedMessage.value);
      showCompose := true;
    }

    method HandleDeleteMessage(m: Message)
      modifies this
      ensures State() == old(State()).(messageToDelete := Some(m), showDeleteConfirm := true)
    {
      messageToDelete := Some(m);
      showDeleteConfirm := true;
    }

    /** Closing the confirmation dialog without deleting. */
    method CancelDelete()
      modifies this
      ensures State() == old(State()).(showDeleteConfirm := false, messageToDelete := None)
    {
      showDeleteConfirm := false;
      messageToDelete := None;
    }

    /** Confirming removes the messages with that id, clears the selection
        exactly when the selected message has that id, and closes the dialog;
        with nothing to delete nothing happens. */
    method ConfirmDelete()
      modifies this
      ensures old(messageToDelete).None? ==> State() == old(State())
      ensures old(messageToDelete).Some? ==>
        var target := old(messageToDelete).value;
        State() == old(State()).(
          messages := RemoveById(old(messages), target.id),
          selectedMessage :=
            if old(selectedMessage).Some? && old(selectedMessage).value.id == target.id then None
            else old(selectedMessage),
          showDeleteConfirm := false,
          messageToDelete := None)
    {
      if messageToDelete.None? {
        return;
      }
      var target := messageToDelete.value;
      messages := RemoveById(messages, target.id);
      if selectedMessage.Some? && selectedMessage.value.id == target.id {
        selectedMessage := None;
      }
      showDeleteConfirm := false;
      messageToDelete := None;
    }

    /** Typing in one field of the draft changes only that field. */
    method HandleMessageChange(field: DraftField, value: string)
      modifies this
      ensures State() == old(State()).(newMessage := WithDraftField(old(newMessage), field, value))
    {
      newMessage := WithDraftField(newMessage, field, value);
    }
  }
}
