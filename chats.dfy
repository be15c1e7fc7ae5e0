/**
  The chat roster screen (`Chats`): its state and the handlers that change
  it. Every handler runs to completion before the next one starts. The live
  query's callback becomes `OnSnapshot`, the local key-value store becomes
  the `storage` field, and remote writes are returned to the caller.
 */
module ChatsScreen {
  import opened Model
  import opened Counters
  import opened Selection
  import opened Presentation
  import opened Deletion

  /** What the local store holds under the key 'newMessages'. */
  datatype Stored = Missing | Unreadable | Saved(entries: CounterMap)

  /** The chat screen the roster navigates to, with its arguments. */
  datatype OpenChat = OpenChat(id: string, chatName: string)

  class Chats {
    /** The signed-in user, read-only for the screen. */
    const me: Identity
    /** `chats`: the documents of the latest snapshot, in query order. */
    var chats: seq<Chat>
    var loading: bool
    /** `selectedItems`. */
    var selected: seq<string>
    /** `newMessages`. */
    var counts: CounterMap
    /** The total last handed to `setUnreadCount`. */
    var total: nat
    /** The local store's 'newMessages' value. */
    var storage: Stored

    ghost predicate Valid()
      reads this
    {
      && DistinctKeys(counts)
      && total == Sum(counts)
      && NoDup(selected)
      && (storage.Saved? ==> DistinctKeys(storage.entries))
    }

    /** The screen as first rendered: nothing loaded yet, no selection. */
    constructor (me: Identity, storage: Stored)
      requires storage.Saved? ==> DistinctKeys(storage.entries)
      ensures Valid()
      ensures this.me == me && this.storage == storage
      ensures chats == [] && loading && selected == [] && counts == [] && total == 0
    {
      this.me := me;
      this.storage := storage;
      chats := [];
      loading := true;
      selected := [];
      counts := [];
      total := 0;
    }

    /**
      `loadNewMessages`: a missing value loads as no counters, a stored one
      replaces the counters and the total; a value that cannot be read is
      logged and changes nothing.
     */
    method Load()
      requires Valid()
      modifies this`counts, this`total
      ensures Valid()
      ensures storage.Missing? ==> counts == [] && total == 0
      ensures storage.Unreadable? ==> counts == old(counts) && total == old(total)
      ensures storage.Saved? ==> counts == storage.entries && total == Sum(storage.entries)
    {
      match storage
      case Missing =>
        counts := [];
        total := 0;
      case Unreadable =>
      case Saved(entries) =>
        counts := entries;
        total := Sum(entries);
    }

    /**
      The live query's callback: the roster becomes the snapshot's documents,
      loading is over, and each "modified" change whose newest message is
      someone else's adds one to its chat's counter, writes the whole counter
      object to the store, and republishes the total.
     */
    method OnSnapshot(docs: seq<Chat>, changes: seq<Change>)
      requires Valid()
      requires AllHandleable(changes)
      modifies this`chats, this`loading, this`counts, this`total, this`storage
      ensures Valid()
      ensures chats == docs && !loading
      ensures counts == ApplyChanges(old(counts), changes, me)
      ensures total == old(total) + ForeignCount(changes, me)
      ensures storage == if ForeignCount(changes, me) > 0 then Saved(counts) else old(storage)
    {
      chats := docs;
      loading := false;
      var i := 0;
      while i < |changes|
        invariant 0 <= i <= |changes|
        invariant chats == docs && !loading
        invariant Valid()
        invariant counts == ApplyChanges(old(counts), changes[..i], me)
        invariant storage == if ForeignCount(changes[..i], me) > 0 then Saved(counts) else old(storage)
      {
        ApplyChangesStep(old(counts), changes, i, me);
        HandleChange(changes[i]);
        i := i + 1;
      }
      assert changes[..|changes|] == changes;
      ApplyChangesSum(old(counts), changes, me);
    }

    /**
      The handling of one change of a snapshot: a "modified" change whose newest
      message is someone else's adds one to its chat's counter, stores the
      counter object and republishes the total; any other change does nothing.
     */
    method HandleChange(change: Change)
      requires Valid()
      requires Handleable(change)
      modifies this`counts, this`total, this`storage
      ensures Valid()
      ensures counts == Bump(old(counts), change, me)
      ensures storage == if IsForeignMessage(change, me) then Saved(counts) else old(storage)
    {
      if change.kind == Modified {
        var firstMessage := change.doc.data.messages[0];
        if !IsOwn(firstMessage.author.id, me) {
          counts := Put(counts, change.doc.id, Get(counts, change.doc.id) + 1);
          storage := Saved(counts);
          total := Sum(counts);
        }
      }
    }

    /** `getSelected`. */
    predicate IsSelected(chat: Chat)
      reads this
    {
      chat.id in selected
    }

    /** `selectItems`: toggles the chat's membership in the selection. */
    method SelectItems(chat: Chat)
      requires Valid()
      modifies this`selected
      ensures Valid()
      ensures selected == Toggled(old(selected), chat.id)
      ensures IsSelected(chat) <==> !old(IsSelected(chat))
    {
      selected := Toggled(selected, chat.id);
    }

    /** `handleLongPress`. */
    method LongPress(chat: Chat)
      requires Valid()
      modifies this`selected
      ensures Valid()
      ensures selected == Toggled(old(selected), chat.id)
    {
      SelectItems(chat);
    }

    /**
      `handleOnPress`: while selecting, a tap toggles the chat and nothing
      else; otherwise the chat's counter is zeroed, the counter object is
      stored, the total republished, and the chat screen is opened with the
      resolved name. When the name resolver reads a participant the chat does
      not have, it fails after the reset was queued: the counter is still
      zeroed and stored, and no chat screen opens.
     */
    method Press(chat: Chat) returns (target: Option<OpenChat>)
      requires Valid()
      modifies this`selected, this`counts, this`total, this`storage
      ensures Valid()
      ensures old(selected) != [] ==>
        && selected == Toggled(old(selected), chat.id)
        && counts == old(counts) && total == old(total) && storage == old(storage)
        && target == None
      ensures old(selected) == [] ==>
        && selected == []
        && counts == Put(old(counts), chat.id, 0)
        && total == old(total) - Get(old(counts), chat.id)
        && storage == Saved(counts)
        && target == if ChatNameDefined(chat.data, me) then Some(OpenChat(chat.id, ChatName(chat.data, me))) else None
    {
      if |selected| > 0 {
        SelectItems(chat);
        target := None;
      } else {
        counts := Put(counts, chat.id, 0);
        storage := Saved(counts);
        total := Sum(counts);
        if ChatNameDefined(chat.data, me) {
          target := Some(OpenChat(chat.id, ChatName(chat.data, me)));
        } else {
          target := None;
        }
      }
    }

    /** `deSelectItems`, also the tap outside any row. */
    method DeselectAll()
      requires Valid()
      modifies this`selected
      ensures Valid()
      ensures selected == [] && HeaderFor(selected) == DefaultChrome
    {
      selected := [];
    }

    /**
      The confirmed deletion: for every selected chat, in selection order, the
      merge-write of its flagged user list and, when every entry is flagged,
      its deletion; then the selection is cleared. A selected id that the
      roster no longer holds makes the handler fail there: the writes for the
      ids before it have been issued, and the selection is kept.
     */
    method ConfirmDelete() returns (writes: seq<RemoteWrite>)
      requires Valid()
      modifies this`selected
      ensures Valid()
      ensures var n := FoundPrefix(old(selected), chats);
        && writes == DeletionPlan(old(selected)[..n], chats, me.email)
        && selected == if n == |old(selected)| then [] else old(selected)
      ensures AllInRoster(old(selected), chats) ==>
        writes == DeletionPlan(old(selected), chats, me.email) && selected == []
    {
      var ids := selected;
      writes := [];
      var i := 0;
      while i < |ids| && ids[i] in Ids(chats)
        invariant selected == ids
        invariant i <= FoundPrefix(ids, chats)
        invariant AllInRoster(ids[..i], chats)
        invariant writes == DeletionPlan(ids[..i], chats, me.email)
      {
        FoundPrefixAt(ids, chats, i);
        DeletionPlanStep(ids, chats, me.email, i);
        var chatId := ids[i];
        var chat := Find(chats, chatId);
        var updatedUsers := SoftDeleteUsers(chat.data.users, me.email);
        var chatWrites := [MergeUsers(chatId, updatedUsers)];
        if CountFlagged(updatedUsers) == |updatedUsers| {
          chatWrites := chatWrites + [DeleteChat(chatId)];
        }
        assert chatWrites == WritesFor(chat, me.email);
        writes := writes + chatWrites;
        i := i + 1;
      }
      FoundPrefixAt(ids, chats, i);
      if i == |ids| {
        assert ids[..|ids|] == ids;
        selected := [];
      }
    }
  }

  /**
    Two chats are delivered; a change on the second one brings a message from
    the other participant, which makes the total 1; opening that chat brings
    the total back to 0 and opens it under the other participant's name.
   */
  method RosterScenario() returns (afterMessage: nat, afterOpen: nat, target: Option<OpenChat>)
    ensures afterMessage == 1 && afterOpen == 0
    ensures target == Some(OpenChat("t2", "Bob"))
  {
    var me := Identity(Some("ann@example.com"), Some("Ann"));
    var ann := User("ann@example.com", "Ann", false);
    var bob := User("bob@example.com", "Bob", false);
    var t1 := Chat("t1", ChatDoc([ann, bob], None, []));
    var hello := Message(Author("bob@example.com", "Bob"), "hi", None);
    var t2 := Chat("t2", ChatDoc([ann, bob], None, [hello]));
    var screen := new Chats(me, Missing);
    screen.Load();
    screen.OnSnapshot([t1, t2], []);
    assert ForeignCount([], me) == 0;
    var change := Change(Modified, t2);
    assert IsForeignMessage(change, me);
    assert [change][..0] == [];
    screen.OnSnapshot([t2, t1], [change]);
    afterMessage := screen.total;
    target := screen.Press(t2);
    afterOpen := screen.total;
  }
}
