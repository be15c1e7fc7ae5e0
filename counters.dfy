/**
  The unread-counter object `newMessages`: a plain JavaScript object from chat
  id to a count, kept as a list of entries with distinct keys. Copying the
  object with one key set overwrites that key's entry when it exists and adds
  an entry otherwise, and the total is a fold over the values. A new key is
  added at the end; where an engine lists a key in the object (array-index
  keys come first) affects neither a count nor the total.
  Chat ids are taken never to name a property every object inherits.
 */
module Counters {
  import opened Model

  datatype Entry = Entry(chatId: string, count: nat)

  type CounterMap = seq<Entry>

  function Keys(m: CounterMap): set<string> {
    if m == [] then {} else {m[0].chatId} + Keys(m[1..])
  }

  /** An object never holds a key twice. */
  predicate DistinctKeys(m: CounterMap) {
    m == [] || (m[0].chatId !in Keys(m[1..]) && DistinctKeys(m[1..]))
  }

  /** The count of chat `k`, zero when the key is missing. */
  function Get(m: CounterMap, k: string): (r: nat)
    ensures k !in Keys(m) ==> r == 0
  {
    if m == [] then 0
    else if m[0].chatId == k then m[0].count
    else Get(m[1..], k)
  }

  /** The sum of all counts: the total handed to `setUnreadCount`. */
  function Sum(m: CounterMap): nat {
    if m == [] then 0 else m[0].count + Sum(m[1..])
  }

  /**
    A copy of the object with key `k` set to `v`. Afterwards `k` holds `v`,
    every other key holds what it held, and the sum has lost the old count of
    `k` and gained `v`.
   */
  function Put(m: CounterMap, k: string, v: nat): (r: CounterMap)
    ensures Keys(r) == Keys(m) + {k}
    ensures Get(r, k) == v
    ensures forall j :: j != k ==> Get(r, j) == Get(m, j)
    ensures Sum(r) + Get(m, k) == Sum(m) + v
    ensures |r| == if k in Keys(m) then |m| else |m| + 1
    ensures DistinctKeys(m) ==> DistinctKeys(r)
  {
    if m == [] then [Entry(k, v)]
    else if m[0].chatId == k then [Entry(k, v)] + m[1..]
    else [m[0]] + Put(m[1..], k, v)
  }

  /** Writing the same value twice is the same as writing it once. */
  lemma {:induction false} PutIdempotent(m: CounterMap, k: string, v: nat)
    ensures Put(Put(m, k, v), k, v) == Put(m, k, v)
  {
    if m != [] && m[0].chatId != k {
      PutIdempotent(m[1..], k, v);
      assert Put(m, k, v)[1..] == Put(m[1..], k, v);
    }
  }

  /** An existing key keeps its position when it is overwritten. */
  lemma {:induction false} PutKeepsPosition(m: CounterMap, k: string, v: nat, i: nat)
    requires i < |m| && m[i].chatId == k && DistinctKeys(m)
    ensures |Put(m, k, v)| == |m|
    ensures Put(m, k, v)[i] == Entry(k, v)
    ensures forall j :: 0 <= j < |m| && j != i ==> Put(m, k, v)[j] == m[j]
  {
    if i == 0 {
    } else {
      assert m[0].chatId != k by { KeyAt(m[1..], i - 1); }
      PutKeepsPosition(m[1..], k, v, i - 1);
    }
  }

  lemma {:induction false} KeyAt(m: CounterMap, i: nat)
    requires i < |m|
    ensures m[i].chatId in Keys(m)
  {
    if i > 0 { KeyAt(m[1..], i - 1); }
  }

  /** In an object with distinct keys, reading a key gives its entry's count. */
  lemma {:induction false} GetEntry(m: CounterMap, i: nat)
    requires DistinctKeys(m) && i < |m|
    ensures Get(m, m[i].chatId) == m[i].count
  {
    if i > 0 {
      KeyAt(m[1..], i - 1);
      GetEntry(m[1..], i - 1);
    }
  }

  /** No single counter exceeds the total. */
  lemma {:induction false} GetAtMostSum(m: CounterMap, k: string)
    ensures Get(m, k) <= Sum(m)
  {
    if m != [] && m[0].chatId != k { GetAtMostSum(m[1..], k); }
  }

  /**
    Opening a chat sets its key to 0: its counter is zero, the
    others keep theirs, the total drops by exactly its old count, and opening
    it again changes nothing.
   */
  lemma OpenResets(m: CounterMap, k: string)
    ensures Get(Put(m, k, 0), k) == 0
    ensures forall j :: j != k ==> Get(Put(m, k, 0), j) == Get(m, j)
    ensures Sum(Put(m, k, 0)) == Sum(m) - Get(m, k)
    ensures Put(Put(m, k, 0), k, 0) == Put(m, k, 0)
  {
    PutIdempotent(m, k, 0);
  }

  /** The effect of one change of a snapshot on the counters. */
  function Bump(m: CounterMap, c: Change, me: Identity): (r: CounterMap)
    requires Handleable(c)
    ensures Get(r, c.doc.id) == Get(m, c.doc.id) + (if IsForeignMessage(c, me) then 1 else 0)
    ensures forall j :: j != c.doc.id ==> Get(r, j) == Get(m, j)
    ensures Sum(r) == Sum(m) + (if IsForeignMessage(c, me) then 1 else 0)
    ensures !IsForeignMessage(c, me) ==> r == m
    ensures DistinctKeys(m) ==> DistinctKeys(r)
  {
    if IsForeignMessage(c, me) then Put(m, c.doc.id, Get(m, c.doc.id) + 1) else m
  }

  predicate AllHandleable(cs: seq<Change>) {
    forall i :: 0 <= i < |cs| ==> Handleable(cs[i])
  }

  /** The counters after the changes of one snapshot, handled in order. */
  function ApplyChanges(m: CounterMap, cs: seq<Change>, me: Identity): CounterMap
    requires AllHandleable(cs)
  {
    if cs == [] then m
    else Bump(ApplyChanges(m, cs[..|cs| - 1], me), cs[|cs| - 1], me)
  }

  /** Handling the changes up to `i` and then change `i`. */
  lemma ApplyChangesStep(m: CounterMap, cs: seq<Change>, i: nat, me: Identity)
    requires AllHandleable(cs) && i < |cs|
    ensures AllHandleable(cs[..i]) && AllHandleable(cs[..i + 1])
    ensures ApplyChanges(m, cs[..i + 1], me) == Bump(ApplyChanges(m, cs[..i], me), cs[i], me)
    ensures ForeignCount(cs[..i + 1], me) == ForeignCount(cs[..i], me) + (if IsForeignMessage(cs[i], me) then 1 else 0)
  {
    assert cs[..i + 1][..i] == cs[..i];
  }

  /** How many changes carry a newest message by someone else. */
  function ForeignCount(cs: seq<Change>, me: Identity): nat
    requires AllHandleable(cs)
  {
    if cs == [] then 0
    else ForeignCount(cs[..|cs| - 1], me) + (if IsForeignMessage(cs[|cs| - 1], me) then 1 else 0)
  }

  /** How many of them concern chat `k`. */
  function ForeignCountFor(cs: seq<Change>, k: string, me: Identity): nat
    requires AllHandleable(cs)
  {
    if cs == [] then 0
    else
      var c := cs[|cs| - 1];
      ForeignCountFor(cs[..|cs| - 1], k, me) + (if c.doc.id == k && IsForeignMessage(c, me) then 1 else 0)
  }

  /**
    Each chat's counter grows by the number of "modified" changes on it whose
    newest message is someone else's; "added" and "removed" changes and the
    user's own messages leave it alone.
   */
  lemma {:induction false} ApplyChangesGet(m: CounterMap, cs: seq<Change>, k: string, me: Identity)
    requires AllHandleable(cs)
    ensures Get(ApplyChanges(m, cs, me), k) == Get(m, k) + ForeignCountFor(cs, k, me)
  {
    if cs != [] {
      ApplyChangesGet(m, cs[..|cs| - 1], k, me);
    }
  }

  /** The total grows by one for every foreign message of the snapshot. */
  lemma {:induction false} ApplyChangesSum(m: CounterMap, cs: seq<Change>, me: Identity)
    requires AllHandleable(cs)
    ensures Sum(ApplyChanges(m, cs, me)) == Sum(m) + ForeignCount(cs, me)
  {
    if cs != [] {
      ApplyChangesSum(m, cs[..|cs| - 1], me);
    }
  }

  lemma {:induction false} ApplyChangesDistinct(m: CounterMap, cs: seq<Change>, me: Identity)
    requires AllHandleable(cs) && DistinctKeys(m)
    ensures DistinctKeys(ApplyChanges(m, cs, me))
  {
    if cs != [] {
      ApplyChangesDistinct(m, cs[..|cs| - 1], me);
    }
  }

  /** A snapshot without foreign messages leaves the counter object as it was. */
  lemma {:induction false} NoForeignNoChange(m: CounterMap, cs: seq<Change>, me: Identity)
    requires AllHandleable(cs) && ForeignCount(cs, me) == 0
    ensures ApplyChanges(m, cs, me) == m
  {
    if cs != [] {
      NoForeignNoChange(m, cs[..|cs| - 1], me);
    }
  }

  /**
    Starting from no counters, N events that each carry someone else's newest
    message give a total of N, whatever chats they concern.
   */
  lemma {:induction false} ForeignEventsTotal(cs: seq<Change>, me: Identity)
    requires AllHandleable(cs)
    requires forall i :: 0 <= i < |cs| ==> IsForeignMessage(cs[i], me)
    ensures Sum(ApplyChanges([], cs, me)) == |cs|
  {
    ApplyChangesSum([], cs, me);
    AllForeign(cs, me);
  }

  lemma {:induction false} AllForeign(cs: seq<Change>, me: Identity)
    requires AllHandleable(cs)
    requires forall i :: 0 <= i < |cs| ==> IsForeignMessage(cs[i], me)
    ensures ForeignCount(cs, me) == |cs|
  {
    if cs != [] {
      AllForeign(cs[..|cs| - 1], me);
    }
  }
}
