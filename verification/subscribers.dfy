/** Newsletter subscribers: one record per e-mail, switched on by
    subscribing and off by unsubscribing, never deleted. */
module Subscribers {
  import opened Common
  import Rows

  /** `isActive` defaults to true on creation. */
  datatype Subscriber = Subscriber(id: string, email: string, isActive: bool)

  type Table = seq<Subscriber>

  /** The unique index on `email`. */
  predicate UniqueEmails(t: Table) {
    forall i, j :: 0 <= i < j < |t| ==> t[i].email != t[j].email
  }

  predicate UniqueIds(t: Table) {
    forall i, j :: 0 <= i < j < |t| ==> t[i].id != t[j].id
  }

  function EmailOf(x: Subscriber): string { x.email }

  function IdOf(x: Subscriber): string { x.id }

  function FindByEmail(t: Table, email: string): (r: Option<nat>)
    ensures r.Some? ==> r.value < |t| && t[r.value].email == email
    ensures r.Some? ==> forall i :: 0 <= i < r.value ==> t[i].email != email
    ensures r.None? <==> forall i :: 0 <= i < |t| ==> t[i].email != email
  {
    Rows.IndexOfKey(t, EmailOf, email)
  }

  function FindById(t: Table, id: string): (r: Option<nat>)
    ensures r.Some? ==> r.value < |t| && t[r.value].id == id
    ensures r.Some? ==> forall i :: 0 <= i < r.value ==> t[i].id != id
    ensures r.None? <==> forall i :: 0 <= i < |t| ==> t[i].id != id
  {
    Rows.IndexOfKey(t, IdOf, id)
  }

  /** A reply, the record a 201 reply carries, and the resulting table. */
  datatype Step = Step(reply: Reply, created: Option<Subscriber>, table: Table)

  const EmailRequired := Reply(BadRequest, "Email is required")
  const AlreadySubscribed := Reply(Ok, "Already subscribed")
  const SubscriberNotFound := Reply(NotFound, "Subscriber not found")
  const Unsubscribed := Reply(Ok, "Unsubscribed")

  /** `!email || typeof email !== "string"`. */
  predicate ValidEmail(email: JsValue) {
    Truthy(email) && email.Str?
  }

  /** The table with row `i` switched on or off. */
  function SetActive(t: Table, i: nat, active: bool): (t': Table)
    requires i < |t|
    ensures |t'| == |t| && t'[i] == t[i].(isActive := active)
    ensures forall k :: 0 <= k < |t| && k != i ==> t'[k] == t[k]
  {
    t[i := t[i].(isActive := active)]
  }

  /** `subscribe`. An unknown e-mail gets a new, active record (`freshId`
      is its generated key); a known one is switched back on if needed and
      no record is added. */
  function Subscribe(t: Table, email: JsValue, freshId: string): (out: Step)
    ensures !ValidEmail(email) ==> out == Step(EmailRequired, None, t)
    ensures ValidEmail(email) && FindByEmail(t, email.s).Some? ==>
              var i := FindByEmail(t, email.s).value;
              && out.reply == AlreadySubscribed
              && out.created.None?
              && |out.table| == |t|
              && out.table[i] == t[i].(isActive := true)
              && forall k :: 0 <= k < |t| && k != i ==> out.table[k] == t[k]
    ensures ValidEmail(email) && FindByEmail(t, email.s).None? ==>
              && out.reply.status == Created
              && out.created == Some(Subscriber(freshId, email.s, true))
              && out.table == t + [Subscriber(freshId, email.s, true)]
  {
    if !ValidEmail(email) then Step(EmailRequired, None, t)
    else match FindByEmail(t, email.s)
      case Some(i) =>
        Step(AlreadySubscribed, None, if t[i].isActive then t else SetActive(t, i, true))
      case None =>
        var sub := Subscriber(freshId, email.s, true);
        Step(Reply(Created, ""), Some(sub), t + [sub])
  }

  /** After subscribing, the e-mail has exactly one record, and it is
      active. */
  lemma {:induction false} SubscribeActivates(t: Table, email: string, freshId: string)
    requires UniqueEmails(t) && email != ""
    ensures var t' := Subscribe(t, Str(email), freshId).table;
            var i := FindByEmail(t', email);
            && UniqueEmails(t')
            && i.Some? && t'[i.value].isActive
            && forall k :: 0 <= k < |t'| && t'[k].email == email ==> k == i.value
  {
    var t' := Subscribe(t, Str(email), freshId).table;
    match FindByEmail(t, email)
    case None =>
      assert t'[|t|].email == email;
      assert FindByEmail(t', email) == Some(|t|);
    case Some(i) =>
      assert FindByEmail(t', email) == Some(i);
  }

  /** Subscribing twice leaves the table as subscribing once. */
  lemma {:induction false} SubscribeIdempotent(t: Table, email: JsValue, id1: string, id2: string)
    ensures var t1 := Subscribe(t, email, id1).table;
            Subscribe(t1, email, id2).table == t1
  {
    var t1 := Subscribe(t, email, id1).table;
    if ValidEmail(email) {
      match FindByEmail(t, email.s)
      case Some(i) =>
        assert FindByEmail(t1, email.s) == Some(i);
      case None =>
        assert t1[|t|].email == email.s;
        assert FindByEmail(t1, email.s) == Some(|t|);
    }
  }

  /** `unsubscribe`: a soft delete; the record stays, switched off. */
  function Unsubscribe(t: Table, email: JsValue): (out: Step)
    ensures !ValidEmail(email) ==> out == Step(EmailRequired, None, t)
    ensures ValidEmail(email) && FindByEmail(t, email.s).None? ==> out == Step(SubscriberNotFound, None, t)
    ensures ValidEmail(email) && FindByEmail(t, email.s).Some? ==>
              var i := FindByEmail(t, email.s).value;
              && out.reply == Unsubscribed
              && |out.table| == |t|
              && out.table[i] == t[i].(isActive := false)
              && forall k :: 0 <= k < |t| && k != i ==> out.table[k] == t[k]
  {
    if !ValidEmail(email) then Step(EmailRequired, None, t)
    else match FindByEmail(t, email.s)
      case None => Step(SubscriberNotFound, None, t)
      case Some(i) => Step(Unsubscribed, None, SetActive(t, i, false))
  }

  /** `unsubscribeById`: the same soft delete, found by key; the reply names
      the e-mail. */
  function UnsubscribeById(t: Table, id: string): (out: Step)
    ensures FindById(t, id).None? ==> out == Step(SubscriberNotFound, None, t)
    ensures FindById(t, id).Some? ==>
              var i := FindById(t, id).value;
              && out.reply == Reply(Ok, "Unsubscribed " + t[i].email)
              && |out.table| == |t|
              && out.table[i] == t[i].(isActive := false)
              && forall k :: 0 <= k < |t| && k != i ==> out.table[k] == t[k]
  {
    match FindById(t, id)
    case None => Step(SubscriberNotFound, None, t)
    case Some(i) => Step(Reply(Ok, "Unsubscribed " + t[i].email), None, SetActive(t, i, false))
  }

  /** Switching a record on or off keeps e-mails and keys unique. */
  lemma SetActivePreservesUniqueness(t: Table, i: nat, active: bool)
    requires UniqueEmails(t) && UniqueIds(t) && i < |t|
    ensures UniqueEmails(SetActive(t, i, active)) && UniqueIds(SetActive(t, i, active))
  {
    var t' := SetActive(t, i, active);
    assert forall k :: 0 <= k < |t| ==> t'[k].email == t[k].email && t'[k].id == t[k].id;
  }

  /** Subscribing keeps e-mails unique, and keys too when the generated key
      is new. */
  lemma SubscribePreservesUniqueness(t: Table, email: JsValue, freshId: string)
    requires UniqueEmails(t) && UniqueIds(t)
    requires FindById(t, freshId).None?
    ensures UniqueEmails(Subscribe(t, email, freshId).table) && UniqueIds(Subscribe(t, email, freshId).table)
  {
    if ValidEmail(email) && FindByEmail(t, email.s).Some? {
      SetActivePreservesUniqueness(t, FindByEmail(t, email.s).value, true);
    }
  }

  /** Both ways of unsubscribing keep e-mails and keys unique. */
  lemma UnsubscribePreservesUniqueness(t: Table, email: JsValue, id: string)
    requires UniqueEmails(t) && UniqueIds(t)
    ensures UniqueEmails(Unsubscribe(t, email).table) && UniqueIds(Unsubscribe(t, email).table)
    ensures UniqueEmails(UnsubscribeById(t, id).table) && UniqueIds(UnsubscribeById(t, id).table)
  {
    if ValidEmail(email) && FindByEmail(t, email.s).Some? {
      SetActivePreservesUniqueness(t, FindByEmail(t, email.s).value, false);
    }
    if FindById(t, id).Some? {
      SetActivePreservesUniqueness(t, FindById(t, id).value, false);
    }
  }

  function IsActive(x: Subscriber): bool {
    x.isActive
  }

  /** `find({ where: { isActive: true } })`: every copy of an active record
      and nothing else. The query names no order; the model lists the rows
      in storage order. */
  function ActiveOnly(t: Table): (r: Table)
    ensures forall i :: 0 <= i < |r| ==> r[i] in t && r[i].isActive
    ensures forall i :: 0 <= i < |t| && t[i].isActive ==> t[i] in r
    ensures multiset(r) <= multiset(t)
    ensures forall i :: 0 <= i < |t| ==>
              multiset(r)[t[i]] == if t[i].isActive then multiset(t)[t[i]] else 0
  {
    Rows.FilterCounts(t, IsActive);
    Rows.Filter(t, IsActive)
  }

  /** `getSubscribers`: with `active=true` exactly the active records,
      otherwise all of them. The query names no order, so what it promises
      is the multiset of rows; the model returns them in storage order. */
  function GetSubscribers(t: Table, active: JsValue): (r: Table)
    ensures active == Str("true") ==>
              && (forall i :: 0 <= i < |r| ==> r[i] in t && r[i].isActive)
              && (forall i :: 0 <= i < |t| && t[i].isActive ==> t[i] in r)
              && multiset(r) <= multiset(t)
              && (forall i :: 0 <= i < |t| ==>
                    multiset(r)[t[i]] == if t[i].isActive then multiset(t)[t[i]] else 0)
    ensures active != Str("true") ==> multiset(r) == multiset(t) && r == t
  {
    if active == Str("true") then ActiveOnly(t) else t
  }

  /** After unsubscribing, the record is still listed but no longer among
      the active ones. */
  lemma {:induction false} UnsubscribedIsListedInactive(t: Table, email: string)
    requires UniqueEmails(t) && FindByEmail(t, email).Some? && email != ""
    ensures var t' := Unsubscribe(t, Str(email)).table;
            && (exists k :: 0 <= k < |t'| && t'[k].email == email)
            && forall x :: x in GetSubscribers(t', Str("true")) ==> x.email != email
  {
    var t' := Unsubscribe(t, Str(email)).table;
    var i := FindByEmail(t, email).value;
    assert t'[i].email == email;
    forall x | x in GetSubscribers(t', Str("true"))
      ensures x.email != email
    {
      var k :| 0 <= k < |t'| && t'[k] == x;
      if k != i {
        assert t'[k] == t[k];
      }
    }
  }
}
