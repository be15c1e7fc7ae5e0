/**
  The row texts of the roster: the chat name (`handleChatName`) and the
  preview of the newest message (`handleSubtitle`).
 */
module Presentation {
  import opened Model

  const NO_NAME := "~ No Name or Email ~"
  const NO_MESSAGES := "No messages yet"
  const YOU := "You"
  const IMAGE_SENT := "sent an image"
  const PREVIEW_LENGTH := 20
  const ELLIPSIS := "..."

  /**
    The name resolver reads `users[0]` in the name and email branches, and
    `users[1]` only when `users[0]` is the signed-in user; an entry it reads
    must exist.
   */
  predicate ChatNameDefined(c: ChatDoc, me: Identity) {
    if Truthy(c.groupName) then true
    else if Truthy(me.displayName) then
      |c.users| >= 1 && (c.users[0].name == me.displayName.value ==> |c.users| >= 2)
    else if Truthy(me.email) then
      |c.users| >= 1 && (c.users[0].email == me.email.value ==> |c.users| >= 2)
    else true
  }

  /**
    `handleChatName`: the group name when there is one; otherwise the first
    of the first two participants whose name (or, without a display name,
    whose email) is not the signed-in user's, falling back to the second one;
    the sentinel when the user has neither a display name nor an email.
   */
  function ChatName(c: ChatDoc, me: Identity): (r: string)
    requires ChatNameDefined(c, me)
    ensures Truthy(c.groupName) ==> r == c.groupName.value
    ensures !Truthy(c.groupName) && Truthy(me.displayName) ==>
      (r == c.users[0].name || (|c.users| >= 2 && r == c.users[1].name)) &&
      (r == me.displayName.value ==> c.users[0].name == r && c.users[1].name == r)
    ensures !Truthy(c.groupName) && Truthy(me.displayName) && c.users[0].name != me.displayName.value ==>
      r == c.users[0].name
    ensures !Truthy(c.groupName) && !Truthy(me.displayName) && Truthy(me.email) ==>
      (r == c.users[0].email || (|c.users| >= 2 && r == c.users[1].email)) &&
      (r == me.email.value ==> c.users[0].email == r && c.users[1].email == r)
    ensures (!Truthy(c.groupName) && !Truthy(me.displayName) && Truthy(me.email) &&
      c.users[0].email != me.email.value) ==> r == c.users[0].email
    ensures !Truthy(c.groupName) && !Truthy(me.displayName) && !Truthy(me.email) ==> r == NO_NAME
  {
    if Truthy(c.groupName) then c.groupName.value
    else if Truthy(me.displayName) then
      if c.users[0].name == me.displayName.value then c.users[1].name else c.users[0].name
    else if Truthy(me.email) then
      if c.users[0].email == me.email.value then c.users[1].email else c.users[0].email
    else NO_NAME
  }

  /**
    In a chat of two, one of them carrying the signed-in user's display name,
    the name shown is the other participant's, whichever of the two places
    the user holds.
   */
  lemma ChatNameIsOtherByName(c: ChatDoc, me: Identity, mine: nat)
    requires !Truthy(c.groupName) && Truthy(me.displayName)
    requires |c.users| == 2 && mine < 2
    requires c.users[mine].name == me.displayName.value
    requires c.users[1 - mine].name != me.displayName.value
    ensures ChatNameDefined(c, me)
    ensures ChatName(c, me) == c.users[1 - mine].name
  {
  }

  /** The same without a display name, comparing emails. */
  lemma ChatNameIsOtherByEmail(c: ChatDoc, me: Identity, mine: nat)
    requires !Truthy(c.groupName) && !Truthy(me.displayName) && Truthy(me.email)
    requires |c.users| == 2 && mine < 2
    requires c.users[mine].email == me.email.value
    requires c.users[1 - mine].email != me.email.value
    ensures ChatNameDefined(c, me)
    ensures ChatName(c, me) == c.users[1 - mine].email
  {
  }

  /** The first piece of a split at spaces: everything before the first space. */
  function FirstWord(s: string): (r: string)
    ensures r <= s
    ensures ' ' !in r
    ensures |r| < |s| ==> s[|r|] == ' '
  {
    if s == [] || s[0] == ' ' then [] else [s[0]] + FirstWord(s[1..])
  }

  /** The author part of a preview: "You" or the author's first name. */
  function AuthorLabel(m: Message, me: Identity): (r: string)
    ensures IsOwn(m.author.id, me) ==> r == YOU
    ensures !IsOwn(m.author.id, me) ==> r == FirstWord(m.author.name)
    ensures ' ' !in r
  {
    if IsOwn(m.author.id, me) then YOU else FirstWord(m.author.name)
  }

  /**
    The body part of a preview: the image sentinel whenever an image is
    attached (even with text), otherwise the text, cut to its first 20
    characters followed by "..." when it is longer than that.
   */
  function PreviewBody(m: Message): (r: string)
    ensures Truthy(m.image) ==> r == IMAGE_SENT
    ensures !Truthy(m.image) && |m.text| <= PREVIEW_LENGTH ==> r == m.text
    ensures !Truthy(m.image) && |m.text| > PREVIEW_LENGTH ==>
      |r| == PREVIEW_LENGTH + |ELLIPSIS| && r[..PREVIEW_LENGTH] == m.text[..PREVIEW_LENGTH] &&
      r[PREVIEW_LENGTH..] == ELLIPSIS
    ensures |r| <= PREVIEW_LENGTH + |ELLIPSIS|
  {
    if Truthy(m.image) then IMAGE_SENT
    else if |m.text| > PREVIEW_LENGTH then m.text[..PREVIEW_LENGTH] + ELLIPSIS
    else m.text
  }

  /** `handleSubtitle`: "author: body" for the newest message. */
  function Subtitle(c: ChatDoc, me: Identity): (r: string)
    ensures c.messages == [] ==> r == NO_MESSAGES
    ensures c.messages != [] ==> |r| == |AuthorLabel(c.messages[0], me)| + 2 + |PreviewBody(c.messages[0])|
  {
    if c.messages == [] then NO_MESSAGES
    else AuthorLabel(c.messages[0], me) + ": " + PreviewBody(c.messages[0])
  }

  /**
    A preview can be taken apart again: its first space-separated word is the
    author label followed by a colon, and after ": " comes the body.
   */
  lemma {:induction false} SubtitleSplits(c: ChatDoc, me: Identity)
    requires c.messages != []
    ensures var who := AuthorLabel(c.messages[0], me);
      var r := Subtitle(c, me);
      FirstWord(r) == who + ":" &&
      r[..|who|] == who &&
      r[|who|..|who| + 2] == ": " &&
      r[|who| + 2..] == PreviewBody(c.messages[0])
  {
    var who := AuthorLabel(c.messages[0], me);
    var body := PreviewBody(c.messages[0]);
    FirstWordBeforeSpace(who + ":", " " + body);
    assert who + ": " + body == (who + ":") + (" " + body);
  }

  lemma {:induction false} FirstWordBeforeSpace(w: string, rest: string)
    requires ' ' !in w && rest != [] && rest[0] == ' '
    ensures FirstWord(w + rest) == w
  {
    if w != [] {
      assert (w + rest)[1..] == w[1..] + rest;
      FirstWordBeforeSpace(w[1..], rest);
    } else {
      assert w + rest == rest;
    }
  }

  /** The long greeting of 37 characters is cut to 20 and gets "...". */
  lemma LongTextIsCut(a: Author)
    ensures PreviewBody(Message(a, "Hello there, how are you doing today?", None)) == "Hello there, how are..."
  {
    assert |"Hello there, how are you doing today?"| == 37;
    assert "Hello there, how are you doing today?"[..20] == "Hello there, how are";
  }
}
