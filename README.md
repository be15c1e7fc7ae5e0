# Chat roster screen, modelled in Dafny

This project models the chat roster screen of a React Native messaging app
(`screens/Chats.jsx`). The screen lists the chats the signed-in user belongs
to and keeps a per-chat unread counter. The counter is fed by the live
query's "modified" events, is reset when a chat is opened, is mirrored to the
device's key-value store, and its sum is published as the app-wide unread
badge. The screen also supports multi-select with tap and long press, and
lets the user leave the selected chats: the user's own entry in each chat's
`users` list is flagged `deletedFromChat`, and a chat is deleted outright once
every entry carries the flag.

Modules, one per part of the screen:

- `Model` (`model.dfy`): chat documents, participant entries, messages, change events and the signed-in identity.
- `Counters` (`counters.dfy`): the unread-counter object as a list of entries with distinct keys. Setting a key overwrites its entry or adds a new one at the end, and the total is the sum of the counts. A JavaScript object lists array-index keys such as "123" before the others, so its key order can differ from the entry order; no count and no total depends on that order.
- `Selection` (`selection.dfy`): the selection list, its toggle and the header chrome.
- `Presentation` (`presentation.dfy`): the chat name and the preview subtitle.
- `Deletion` (`deletion.dfy`): the soft delete, the hard-delete test, and the list of remote writes a confirmed deletion issues.
- `ChatsScreen` (`chats.dfy`): the screen as a class whose fields are the component's state, with one method per handler.

Behaviour of the code worth knowing:

- A "modified" change is read at `messages[0]` without a guard, so a change on a chat with no messages fails. The model makes a non-empty message list a precondition (`Model.Handleable`).
- An attached image always wins over the text in a preview, even when text is present.
- When both listed participants carry the user's display name, the name shown is the second one's. The "no name" sentinel appears only when the user has neither a display name nor an email.
- A tap that opens a chat whose name reads a participant the chat does not have (`users[0]`, or `users[1]` when the first entry is the user) fails in the name resolver. The counter reset was already queued, so the count is still zeroed and stored, but no chat screen opens (`ChatsScreen.Chats.Press`). The list render resolves every row's name too, so such a chat already breaks the render; the tap can reach this path only when the signed-in identity changes between the render and the tap.
- A selected id that the deletion handler's roster lacks makes the confirmed deletion fail at that id. The handler sees the roster as it was when the selection last changed, so this happens when a snapshot drops a selected chat and the selection changes afterwards (see the `ChatsScreen.Chats.ConfirmDelete` line under "Left out"). The writes for the ids before it are issued, the rest get none, and the selection is not cleared (`Deletion.FoundPrefix`).
- The selection is a list, not a set. A toggle filters the id out or appends it, so toggling a selected id twice moves it to the end (`Selection.ToggleTwiceMovesToEnd`; `Selection.ToggleTwiceReorders` is an example).

## Model

| member | source | states |
|---|---|---|
| `Counters.Get` | screens/Chats.jsx:52 | a chat without an entry counts 0 |
| `Counters.GetEntry` | screens/Chats.jsx:52 | in an object with distinct keys, reading an entry's key gives that entry's count |
| `Counters.Sum` | screens/Chats.jsx:27 | the fold over the values that the code publishes as the total; its meaning is stated by `Put`, `GetAtMostSum` and `ApplyChangesSum` |
| `Counters.Put` | screens/Chats.jsx:117 | setting a key: that key holds the new value, every other key keeps its count, the key set gains the key, the sum loses the old count and gains the new one, distinct keys stay distinct, and the length grows only for a new key |
| `Counters.PutKeepsPosition` | screens/Chats.jsx:52 | overwriting an existing key keeps it at its position and leaves every other entry in place |
| `Counters.PutIdempotent` | screens/Chats.jsx:116-121 | setting the same value twice equals setting it once |
| `Counters.GetAtMostSum` | screens/Chats.jsx:54 | no single chat's count exceeds the published total |
| `Counters.OpenResets` | screens/Chats.jsx:116-120 | opening a chat zeroes its count, keeps the other counts, lowers the total by exactly the old count, and opening it again changes nothing |
| `Model.Handleable` | screens/Chats.jsx:45-50 | a "modified" change can be handled only when its chat has a newest message, which the code reads without a guard |
| `Model.IsForeignMessage` | screens/Chats.jsx:45-50 | the test a change passes to be counted: "modified" and a newest message whose author id is not the user's email; `Bump` and `AllForeign` state its effect |
| `Counters.Bump` | screens/Chats.jsx:45-57 | one change adds 1 to its chat's count exactly when it is "modified" and its newest message's author is not the user; other chats and the sum change accordingly; otherwise the object is unchanged |
| `Counters.ApplyChanges` | screens/Chats.jsx:44-59 | the changes of one snapshot applied in order, each as `Bump`; what it computes is stated by `ApplyChangesGet`, `ApplyChangesSum`, `ApplyChangesDistinct` and `NoForeignNoChange` |
| `Counters.ApplyChangesGet` | screens/Chats.jsx:44-59 | after a snapshot's changes, each chat's count grows by the number of "modified" changes on it carrying someone else's newest message; "added" and "removed" changes and own messages add nothing |
| `Counters.ApplyChangesSum` | screens/Chats.jsx:51-55 | the total grows by the number of foreign messages in the snapshot |
| `Counters.ApplyChangesDistinct` | screens/Chats.jsx:52 | handling changes never duplicates a key |
| `Counters.NoForeignNoChange` | screens/Chats.jsx:44-59 | a snapshot without foreign messages leaves the counter object exactly as it was |
| `Counters.ForeignEventsTotal` | screens/Chats.jsx:44-57 | from no counters, N foreign "modified" events give a total of N, whatever chats they hit |
| `Counters.AllForeign` | screens/Chats.jsx:45-50 | when every change carries a foreign newest message, all of them are counted |
| `Selection.Without` | screens/Chats.jsx:131 | filtering removes the id and keeps every other id, is the identity when the id is absent, keeps the list free of duplicates, and removes exactly one element from a duplicate-free list holding it |
| `Selection.WithoutAppend` | screens/Chats.jsx:131 | filtering a concatenation filters each part, so the kept ids stay in their order |
| `Selection.WithoutAt` | screens/Chats.jsx:131 | in a duplicate-free list, filtering out the id at position k gives the list with just that position removed |
| `Selection.Toggled` | screens/Chats.jsx:129-135 | the id's membership flips and no other id's changes; an unselected id is appended at the end; no duplicates appear; the length goes down or up by one |
| `Selection.ToggleTwiceSameMembers` | screens/Chats.jsx:129-135 | toggling an id twice gives back the same set of selected ids |
| `Selection.ToggleTwiceRestores` | screens/Chats.jsx:129-135 | for an id that was not selected, toggling twice gives back the very same list |
| `Selection.ToggleTwiceMovesToEnd` | screens/Chats.jsx:129-135 | toggling a selected id twice gives the other ids in their order, followed by that id |
| `Selection.ToggleTwiceReorders` | screens/Chats.jsx:129-135 | for a selected id that is not last, toggling twice moves it to the end: ["a","b"] becomes ["b","a"] |
| `Selection.HeaderFor` | screens/Chats.jsx:72-89 | the header shows a count and the delete control exactly when the selection is non-empty, and the count is the selection's length |
| `Selection.SelectionScenario` | screens/Chats.jsx:125-143 | long press on A selects [A]; a tap on A empties it again; long presses on A then B select [A, B] with a header count of 2 |
| `Presentation.ChatNameDefined` | screens/Chats.jsx:96-106 | the name resolver fails exactly when it reads `users[0]`, or `users[1]` after a match on `users[0]`, and that entry is missing; a truthy group name or an identity with neither name nor email never fails |
| `Presentation.ChatName` | screens/Chats.jsx:92-109 | a truthy group name is returned whatever the users; otherwise, with a display name, the first participant's name when it is not the user's, else the second one's; without a display name the same by email; the result equals the user's own only when both of them carry it; with neither name nor email, the sentinel |
| `Presentation.ChatNameIsOtherByName` | screens/Chats.jsx:100-102 | in a chat of two where exactly one participant has the user's display name, in either position, the other one's name is shown |
| `Presentation.ChatNameIsOtherByEmail` | screens/Chats.jsx:104-106 | the same rule by email when the user has no display name |
| `Presentation.FirstWord` | screens/Chats.jsx:186 | the first word is a prefix of the name, holds no space, and is followed by a space unless it is the whole name |
| `Presentation.AuthorLabel` | screens/Chats.jsx:185-186 | the label is "You" for the user's own messages, otherwise the author's first word; it never contains a space |
| `Presentation.PreviewBody` | screens/Chats.jsx:187 | an attached image yields "sent an image" even with text; text of at most 20 characters is kept; longer text becomes its first 20 characters plus "..."; the body never exceeds 23 characters |
| `Presentation.Subtitle` | screens/Chats.jsx:181-190 | no messages give "No messages yet"; otherwise the length is the label's plus 2 plus the body's |
| `Presentation.SubtitleSplits` | screens/Chats.jsx:189 | a preview can be taken apart: its first word is the author label plus ":", and after ": " comes exactly the body |
| `Presentation.LongTextIsCut` | screens/Chats.jsx:187 | the 37-character greeting is shown as "Hello there, how are..." |
| `Deletion.SoftDeleteUsers` | screens/Chats.jsx:159-163 | the list keeps its length, emails and names; an entry is flagged afterwards exactly when it was flagged or has the user's email; entries of other emails are unchanged |
| `Deletion.SoftDeleteIdempotent` | screens/Chats.jsx:159-163 | flagging twice equals flagging once |
| `Deletion.SoftDeleteLeavesRoster` | screens/Chats.jsx:36 | afterwards no entry equals the user's membership record under any display name, and every other participant's membership record is present exactly when it was |
| `Deletion.MembershipRecord` | screens/Chats.jsx:36 | the entry the roster query looks for; `SoftDeleteLeavesRoster` and `TwoPartyLeave` state how leaving changes whether it is present |
| `Deletion.CountFlagged` | screens/Chats.jsx:167 | the flagged count never exceeds the list length |
| `Deletion.ShouldHardDelete` | screens/Chats.jsx:167-168 | the test as written, flagged count equal to length; `HardDeleteIffAllFlagged` states that it means every entry is flagged |
| `Deletion.HardDeleteIffAllFlagged` | screens/Chats.jsx:167-170 | the test "flagged count equals length" holds exactly when every entry is flagged |
| `Deletion.HardDeleteIffLastToLeave` | screens/Chats.jsx:167-170 | leaving a chat deletes it outright exactly when every other entry had already left |
| `Deletion.TwoPartyLeave` | screens/Chats.jsx:157-171 | in a chat of two, the first to leave keeps it alive and still listed for the other; the second to leave deletes it |
| `Deletion.Find` | screens/Chats.jsx:158 | the found chat is in the roster, has the id, and is the first with that id |
| `Deletion.WritesFor` | screens/Chats.jsx:158-171 | the writes one selected chat receives: its flagged user list, then its deletion when the test holds |
| `Deletion.DeletionPlan` | screens/Chats.jsx:157-171 | the writes for all selected ids in selection order; the ids, lists and deletions it issues are stated by the `Plan` lemmas below |
| `Deletion.FoundPrefix` | screens/Chats.jsx:157-159 | the number of selected ids, from the front, that the roster holds: every one of them is found, the next one is not, and all are found when every selected id is in the roster |
| `Deletion.PlanTargetsSelected` | screens/Chats.jsx:157-171 | every remote write concerns a selected chat |
| `Deletion.PlanMergesEverySelected` | screens/Chats.jsx:157-165 | every selected chat gets its flagged user list merge-written |
| `Deletion.PlanMergesAreFlagged` | screens/Chats.jsx:158-165 | every merge-write carries exactly the flagged user list of the chat it names |
| `Deletion.PlanHardDeletes` | screens/Chats.jsx:167-170 | a chat is deleted outright exactly when it is selected and all entries of its flagged list are flagged |
| `Deletion.PlanDeletesAfterMerge` | screens/Chats.jsx:165-170 | every deletion comes right after the merge-write of the same chat, and that written list is fully flagged |
| `Deletion.PlanDeletesOnce` | screens/Chats.jsx:157-171 | with no id selected twice, no chat is deleted twice |
| `ChatsScreen.Chats.constructor` | screens/Chats.jsx:15-18 | the screen starts loading, with no chats, no selection, no counters and a total of 0 |
| `ChatsScreen.Chats.Load` | screens/Chats.jsx:22-31 | a missing stored value loads as no counters and total 0; a stored object replaces the counters and sets the total to its sum; an unreadable value changes nothing |
| `ChatsScreen.Chats.OnSnapshot` | screens/Chats.jsx:40-60 | the roster becomes the snapshot's documents and loading ends for good; the counters are the old ones with the changes applied; the total grows by the foreign-message count; the store holds the new counters when anything was counted and is untouched otherwise |
| `ChatsScreen.Chats.HandleChange` | screens/Chats.jsx:45-57 | one change updates the counters as `Bump` says, and a counted change stores the new counter object and republishes its sum |
| `ChatsScreen.Chats.IsSelected` | screens/Chats.jsx:137-139 | whether the chat's id is in the selection; `SelectItems` states that a toggle flips it |
| `ChatsScreen.Chats.SelectItems` | screens/Chats.jsx:129-135 | the selection is toggled at the chat's id, so the chat's selected state flips |
| `ChatsScreen.Chats.LongPress` | screens/Chats.jsx:125-127 | a long press toggles the chat in the selection |
| `ChatsScreen.Chats.Press` | screens/Chats.jsx:111-123 | while selecting, a tap only toggles, and counters, total and store are unchanged; otherwise the chat's count is set to 0, the total drops by its old count, the store holds the new counters, and the chat opens under its resolved name, or does not open when the name resolver reads a missing participant |
| `ChatsScreen.Chats.DeselectAll` | screens/Chats.jsx:141-143 | the selection is empty and the header is the default one |
| `ChatsScreen.Chats.ConfirmDelete` | screens/Chats.jsx:156-173 | the writes are the deletion plan for the selected ids up to the first one the roster no longer holds; the selection is cleared only when there is no such id; when every selected id is in the roster, the writes are the whole plan and the selection is empty |
| `ChatsScreen.RosterScenario` | screens/Chats.jsx:44-121 | two chats are delivered and a message from the other participant arrives on the second; the total becomes 1; opening that chat brings it back to 0 and opens it under the other participant's name |

The screen's invariant `Valid()` holds between handlers: distinct keys, a
published total equal to the sum of the counters, no duplicate selection, and
a well-formed stored object.

## Left out

- Firestore: building the query, subscribing, unsubscribing, and performing `setDoc` and `deleteDoc`. The snapshot is a method input. The writes are returned as `RemoteWrite` values. The membership filter and the ordering by `lastUpdated` belong to the query, so the roster keeps the order in which the documents arrive.
- AsyncStorage and JSON. The stored value is the `storage` field: missing, unreadable, or a counter object. Serialization is not modelled. A read or parse error is `Unreadable`, which the code only logs. Stored values that parse to something other than an object of counts are not modelled.
- Hook timing. `useFocusEffect`, `useEffect`, React's batching of state updates and the asynchrony of loading are not modelled: every handler runs to completion on its own. A load that finishes after snapshot increments, and so overwrites them, is not modelled.
- ChatsScreen.Chats.ConfirmDelete: reads the current roster and selection, while the header's delete button calls the handler captured when the selection last changed (screens/Chats.jsx:68-70, 76), which sees the roster of that moment.
- `handleSubtitle2`: it formats a date through the locale, which is outside what is specified here.
- Rendering, navigation and dialogs. The chat screen to open is returned as a value. The alert texts, including the singular or plural title, are not modelled, and neither is the cancel path, which changes nothing. `handleFabPress` only navigates and is not modelled.
- The parent's initial unread total is taken to be 0.
- Counters.Get: chat ids are assumed never to name a property every JavaScript object inherits (`constructor`, `toString`, `valueOf`, `propertyIsEnumerable`, ...). For such an id without an own entry, the code's lookup reads the inherited function instead of 0, and adding 1 turns the count, and then the published total, into a string. Ids the remote store generates are 20 random letters and digits, so they hit such a name only by a negligible chance.
- Counters are unbounded naturals. JavaScript numbers are exact up to 2^53, far beyond any count a device can reach.
- Presentation.PreviewBody: counts Unicode scalar values, while the code's length and substring count UTF-16 code units. The two differ for text with characters outside the Basic Multilingual Plane, such as most emoji.
- ChatsScreen.Chats.OnSnapshot: requires every "modified" change to carry at least one message; what the code does after failing on one with none, in the middle of a snapshot, is not modelled.
- A message always has a text in the model. The code fails on a message with neither an image nor a text.
- Remote write failures are not modelled: the code fires the writes and never checks them.
- `screens/Help.jsx`: a static panel that opens a link or shows an alert, with no state.
