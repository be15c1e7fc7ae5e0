/**
  Leaving chats (`handleDeleteChat`): the signed-in user's entries in a
  chat's `users` list are flagged `deletedFromChat`, the flagged list is
  merge-written back, and the chat document is deleted outright once every
  entry carries the flag. The remote writes are returned as values.
 */
module Deletion {
  import opened Model
  import opened Selection

  /** The entry the roster query looks for in `users` to list a chat for a user. */
  function MembershipRecord(email: string, name: string): User {
    User(email, name, false)
  }

  /** Every entry with the signed-in user's email gets the flag; the others stay as they are. */
  function SoftDeleteUsers(users: seq<User>, email: Option<string>): (r: seq<User>)
    ensures |r| == |users|
    ensures forall i :: 0 <= i < |users| ==>
      r[i].email == users[i].email && r[i].name == users[i].name &&
      r[i].deletedFromChat == (users[i].deletedFromChat || email == Some(users[i].email))
    ensures forall i :: 0 <= i < |users| && email != Some(users[i].email) ==> r[i] == users[i]
  {
    if users == [] then []
    else
      var u := users[0];
      [if email == Some(u.email) then u.(deletedFromChat := true) else u] + SoftDeleteUsers(users[1..], email)
  }

  /** Flagging a second time changes nothing. */
  lemma {:induction false} SoftDeleteIdempotent(users: seq<User>, email: Option<string>)
    ensures SoftDeleteUsers(SoftDeleteUsers(users, email), email) == SoftDeleteUsers(users, email)
  {
    if users != [] {
      SoftDeleteIdempotent(users[1..], email);
    }
  }

  /**
    After the flagging the chat no longer matches the roster query of the user
    who left it, under any display name, while every other participant's
    membership is exactly what it was.
   */
  lemma SoftDeleteLeavesRoster(users: seq<User>, e: string)
    ensures forall n :: MembershipRecord(e, n) !in SoftDeleteUsers(users, Some(e))
    ensures forall e', n :: e' != e ==>
      (MembershipRecord(e', n) in SoftDeleteUsers(users, Some(e)) <==> MembershipRecord(e', n) in users)
  {
    var r := SoftDeleteUsers(users, Some(e));
    forall e', n | e' != e && MembershipRecord(e', n) in users
      ensures MembershipRecord(e', n) in r
    {
      var i :| 0 <= i < |users| && users[i] == MembershipRecord(e', n);
      assert r[i] == users[i];
    }
  }

  /** How many entries carry the flag. */
  function CountFlagged(users: seq<User>): (n: nat)
    ensures n <= |users|
  {
    if users == [] then 0
    else (if users[0].deletedFromChat then 1 else 0) + CountFlagged(users[1..])
  }

  /** The hard-delete test as written: the flagged count equals the length. */
  predicate ShouldHardDelete(users: seq<User>) {
    CountFlagged(users) == |users|
  }

  /** Counting the flags is the same as asking that every entry is flagged. */
  lemma {:induction false} HardDeleteIffAllFlagged(users: seq<User>)
    ensures ShouldHardDelete(users) <==> forall i :: 0 <= i < |users| ==> users[i].deletedFromChat
  {
    if users != [] {
      HardDeleteIffAllFlagged(users[1..]);
      assert forall i :: 1 <= i < |users| ==> users[i] == users[1..][i - 1];
    }
  }

  /**
    Leaving a chat destroys it exactly when every other entry had already
    left: the last participant to leave is the one who deletes it.
   */
  lemma HardDeleteIffLastToLeave(users: seq<User>, e: string)
    ensures ShouldHardDelete(SoftDeleteUsers(users, Some(e))) <==>
      forall i :: 0 <= i < |users| ==> users[i].email == e || users[i].deletedFromChat
  {
    HardDeleteIffAllFlagged(SoftDeleteUsers(users, Some(e)));
  }

  /**
    Two participants who both still see the chat: when the first leaves, the
    chat is kept and still reaches the other; when the other leaves too, it
    is destroyed.
   */
  lemma TwoPartyLeave(a: string, na: string, b: string, nb: string)
    requires a != b
    ensures var first := SoftDeleteUsers([MembershipRecord(a, na), MembershipRecord(b, nb)], Some(a));
      !ShouldHardDelete(first) &&
      MembershipRecord(b, nb) in first && MembershipRecord(a, na) !in first &&
      ShouldHardDelete(SoftDeleteUsers(first, Some(b)))
  {
    var users := [MembershipRecord(a, na), MembershipRecord(b, nb)];
    var first := SoftDeleteUsers(users, Some(a));
    SoftDeleteLeavesRoster(users, a);
    HardDeleteIffLastToLeave(users, a);
    assert !(users[1].email == a || users[1].deletedFromChat);
    HardDeleteIffLastToLeave(first, b);
  }

  /** A write the deletion issues against the remote store. */
  datatype RemoteWrite = MergeUsers(chatId: string, users: seq<User>) | DeleteChat(chatId: string)

  function Ids(roster: seq<Chat>): seq<string> {
    if roster == [] then [] else [roster[0].id] + Ids(roster[1..])
  }

  /** The first chat of the roster with that id, as an array search returns it. */
  function Find(roster: seq<Chat>, id: string): (c: Chat)
    requires id in Ids(roster)
    ensures c in roster && c.id == id
    ensures exists k :: 0 <= k < |roster| && roster[k] == c && forall j :: 0 <= j < k ==> roster[j].id != id
  {
    if roster[0].id == id then roster[0]
    else
      var c := Find(roster[1..], id);
      var k :| 0 <= k < |roster[1..]| && roster[1..][k] == c && forall j :: 0 <= j < k ==> roster[1..][j].id != id;
      assert roster[k + 1] == c;
      c
  }

  /** The writes for one chat: its merged user list, then possibly its deletion. */
  function WritesFor(chat: Chat, email: Option<string>): seq<RemoteWrite> {
    var updated := SoftDeleteUsers(chat.data.users, email);
    [MergeUsers(chat.id, updated)] + (if ShouldHardDelete(updated) then [DeleteChat(chat.id)] else [])
  }

  predicate AllInRoster(ids: seq<string>, roster: seq<Chat>) {
    forall id :: id in ids ==> id in Ids(roster)
  }

  /**
    How many selected ids, from the front, the roster holds before the first
    one it does not hold.
   */
  function FoundPrefix(ids: seq<string>, roster: seq<Chat>): (n: nat)
    ensures n <= |ids|
    ensures AllInRoster(ids[..n], roster)
    ensures n < |ids| ==> ids[n] !in Ids(roster)
    ensures AllInRoster(ids, roster) ==> n == |ids|
  {
    if ids == [] || ids[0] !in Ids(roster) then 0
    else
      var n := 1 + FoundPrefix(ids[1..], roster);
      assert ids[..n] == [ids[0]] + ids[1..][..n - 1];
      n
  }

  /** Within the found prefix, position `i` is inside it exactly when its id is found. */
  lemma FoundPrefixAt(ids: seq<string>, roster: seq<Chat>, i: nat)
    requires i <= FoundPrefix(ids, roster)
    ensures i < FoundPrefix(ids, roster) <==> i < |ids| && ids[i] in Ids(roster)
  {
    var n := FoundPrefix(ids, roster);
    if i < n {
      assert ids[..n][i] == ids[i];
    }
  }

  /** The writes for the selected chats, in selection order. */
  function DeletionPlan(ids: seq<string>, roster: seq<Chat>, email: Option<string>): seq<RemoteWrite>
    requires AllInRoster(ids, roster)
  {
    if ids == [] then []
    else DeletionPlan(ids[..|ids| - 1], roster, email) + WritesFor(Find(roster, ids[|ids| - 1]), email)
  }

  /** The plan for the ids up to `i` and then the writes for id `i`. */
  lemma DeletionPlanStep(ids: seq<string>, roster: seq<Chat>, email: Option<string>, i: nat)
    requires i < |ids| && AllInRoster(ids[..i], roster) && ids[i] in Ids(roster)
    ensures AllInRoster(ids[..i + 1], roster)
    ensures DeletionPlan(ids[..i + 1], roster, email) ==
      DeletionPlan(ids[..i], roster, email) + WritesFor(Find(roster, ids[i]), email)
  {
    assert ids[..i + 1] == ids[..i] + [ids[i]];
    assert ids[..i + 1][..i] == ids[..i];
  }

  /** The user list a selected chat is merge-written with. */
  function Flagged(roster: seq<Chat>, id: string, email: Option<string>): seq<User>
    requires id in Ids(roster)
  {
    SoftDeleteUsers(Find(roster, id).data.users, email)
  }

  /** Every write concerns a selected chat. */
  lemma {:induction false} PlanTargetsSelected(ids: seq<string>, roster: seq<Chat>, email: Option<string>)
    requires AllInRoster(ids, roster)
    ensures forall k :: 0 <= k < |DeletionPlan(ids, roster, email)| ==> DeletionPlan(ids, roster, email)[k].chatId in ids
  {
    if ids != [] {
      var front := ids[..|ids| - 1];
      PlanTargetsSelected(front, roster, email);
      assert forall id :: id in front ==> id in ids;
    }
  }

  /** Every selected chat gets its flagged user list merge-written. */
  lemma {:induction false} PlanMergesEverySelected(ids: seq<string>, roster: seq<Chat>, email: Option<string>)
    requires AllInRoster(ids, roster)
    ensures forall id :: id in ids ==> MergeUsers(id, Flagged(roster, id, email)) in DeletionPlan(ids, roster, email)
  {
    if ids != [] {
      var front := ids[..|ids| - 1];
      PlanMergesEverySelected(front, roster, email);
      forall id | id in ids
        ensures MergeUsers(id, Flagged(roster, id, email)) in DeletionPlan(ids, roster, email)
      {
        if id != ids[|ids| - 1] {
          assert id in front by {
            var i :| 0 <= i < |ids| && ids[i] == id;
            assert front[i] == id;
          }
        }
      }
    }
  }

  /** Every merge-write of the plan carries the flagged user list of the chat it names. */
  lemma {:induction false} PlanMergesAreFlagged(ids: seq<string>, roster: seq<Chat>, email: Option<string>)
    requires AllInRoster(ids, roster)
    ensures forall k :: 0 <= k < |DeletionPlan(ids, roster, email)| && DeletionPlan(ids, roster, email)[k].MergeUsers? ==>
      DeletionPlan(ids, roster, email)[k].chatId in Ids(roster) &&
      DeletionPlan(ids, roster, email)[k].users == Flagged(roster, DeletionPlan(ids, roster, email)[k].chatId, email)
  {
    if ids != [] {
      var front := ids[..|ids| - 1];
      var last := ids[|ids| - 1];
      PlanMergesAreFlagged(front, roster, email);
      var head := DeletionPlan(front, roster, email);
      var tail := WritesFor(Find(roster, last), email);
      var plan := head + tail;
      forall k | 0 <= k < |plan| && plan[k].MergeUsers?
        ensures plan[k].chatId in Ids(roster) && plan[k].users == Flagged(roster, plan[k].chatId, email)
      {
        if k < |head| {
          assert plan[k] == head[k];
        } else {
          assert plan[k] == tail[k - |head|];
        }
      }
    }
  }

  /** A chat is deleted outright exactly when it is selected and all its entries are flagged. */
  lemma {:induction false} PlanHardDeletes(ids: seq<string>, roster: seq<Chat>, email: Option<string>)
    requires AllInRoster(ids, roster)
    ensures forall id :: DeleteChat(id) in DeletionPlan(ids, roster, email) <==>
      id in ids && ShouldHardDelete(Flagged(roster, id, email))
  {
    if ids != [] {
      var front := ids[..|ids| - 1];
      PlanHardDeletes(front, roster, email);
      assert ids == front + [ids[|ids| - 1]];
    }
  }

  predicate DeletesFollowMerges(plan: seq<RemoteWrite>) {
    forall k :: 0 <= k < |plan| && plan[k].DeleteChat? ==>
      k > 0 && plan[k - 1].MergeUsers? && plan[k - 1].chatId == plan[k].chatId &&
      ShouldHardDelete(plan[k - 1].users)
  }

  /** Each deletion comes right after the merge-write that flagged the chat's last entry. */
  lemma {:induction false} PlanDeletesAfterMerge(ids: seq<string>, roster: seq<Chat>, email: Option<string>)
    requires AllInRoster(ids, roster)
    ensures DeletesFollowMerges(DeletionPlan(ids, roster, email))
  {
    if ids != [] {
      var front := DeletionPlan(ids[..|ids| - 1], roster, email);
      var chat := Find(roster, ids[|ids| - 1]);
      var tail := WritesFor(chat, email);
      var plan := front + tail;
      PlanDeletesAfterMerge(ids[..|ids| - 1], roster, email);
      forall k | 0 <= k < |plan| && plan[k].DeleteChat?
        ensures k > 0 && plan[k - 1].MergeUsers? && plan[k - 1].chatId == plan[k].chatId &&
          ShouldHardDelete(plan[k - 1].users)
      {
        if k < |front| {
          assert plan[k] == front[k];
          assert front[k].DeleteChat?;
          assert plan[k - 1] == front[k - 1];
        } else {
          assert plan[k] == tail[k - |front|];
          assert k - |front| == 1;
          assert plan[k - 1] == tail[0];
        }
      }
    }
  }

  predicate DeletesOnce(plan: seq<RemoteWrite>) {
    forall k1, k2 :: 0 <= k1 < k2 < |plan| && plan[k1].DeleteChat? && plan[k2].DeleteChat? ==>
      plan[k1].chatId != plan[k2].chatId
  }

  /** With no id selected twice, no chat is deleted twice. */
  lemma {:induction false} PlanDeletesOnce(ids: seq<string>, roster: seq<Chat>, email: Option<string>)
    requires AllInRoster(ids, roster) && NoDup(ids)
    ensures DeletesOnce(DeletionPlan(ids, roster, email))
  {
    if ids != [] {
      var front := ids[..|ids| - 1];
      var last := ids[|ids| - 1];
      assert NoDup(front);
      assert last !in front;
      PlanDeletesOnce(front, roster, email);
      PlanTargetsSelected(front, roster, email);
      var head := DeletionPlan(front, roster, email);
      var tail := WritesFor(Find(roster, last), email);
      var plan := head + tail;
      assert forall k :: 0 <= k < |tail| ==> tail[k].chatId == last;
      assert forall k :: 0 <= k < |tail| && tail[k].DeleteChat? ==> k == 1;
      forall k1, k2 | 0 <= k1 < k2 < |plan| && plan[k1].DeleteChat? && plan[k2].DeleteChat?
        ensures plan[k1].chatId != plan[k2].chatId
      {
        if k2 < |head| {
          assert plan[k1] == head[k1] && plan[k2] == head[k2];
          assert head[k1].DeleteChat? && head[k2].DeleteChat?;
        } else if k1 < |head| {
          assert plan[k1] == head[k1] && plan[k2] == tail[k2 - |head|];
          assert head[k1].chatId in front;
        }
      }
    }
  }
}
