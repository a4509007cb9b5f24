/** Contact messages: anyone may submit one; an admin marks it read, marks it
    responded, or deletes it. */
module Inbox {
  import opened Records

  /** `contact` (POST): stores the message, unread and not responded to,
      submitted at `now`. No principal is needed. */
  ghost function SubmitContact(db: Db, name: string, email: string, subject: string, message: string, now: Time): (r: Step)
    ensures r.out == Ok(ContactPage)
    ensures r.db == db.(contacts := r.db.contacts)
    ensures var id := NextId(db.contacts.Keys);
            && Inserted(db.contacts, r.db.contacts, id)
            && r.db.contacts[id] == Contact(name, email, subject, message, now, false, false)
  {
    var contact := Contact(name, email, subject, message, now, false, false);
    var id := NextId(db.contacts.Keys);
    InsertAt(db.contacts, id, contact);
    Step(db.(contacts := db.contacts[id := contact]), Ok(ContactPage))
  }

  /** `mark_contact_read/<id>`: sets the message's read flag and nothing else. */
  function MarkContactRead(db: Db, p: Principal, id: Id): (r: Step)
    ensures !IsAdmin(db, p) ==> r == Step(db, Gate(db, p, Home).value)
    ensures IsAdmin(db, p) && id !in db.contacts ==> r == Step(db, NotFound)
    ensures IsAdmin(db, p) && id in db.contacts ==>
      && r.out == Ok(AdminPage)
      && r.db == db.(contacts := r.db.contacts)
      && UpdatedOnly(db.contacts, r.db.contacts, id)
      && r.db.contacts[id] == db.contacts[id].(isRead := true)
  {
    match Gate(db, p, Home)
    case Some(denied) => Step(db, denied)
    case None =>
      if id !in db.contacts then Step(db, NotFound)
      else Step(db.(contacts := db.contacts[id := db.contacts[id].(isRead := true)]), Ok(AdminPage))
  }

  /** `mark_contact_responded/<id>`: sets the message's responded flag and
      nothing else; it does not mark the message read. */
  function MarkContactResponded(db: Db, p: Principal, id: Id): (r: Step)
    ensures !IsAdmin(db, p) ==> r == Step(db, Gate(db, p, Home).value)
    ensures IsAdmin(db, p) && id !in db.contacts ==> r == Step(db, NotFound)
    ensures IsAdmin(db, p) && id in db.contacts ==>
      && r.out == Ok(AdminPage)
      && r.db == db.(contacts := r.db.contacts)
      && UpdatedOnly(db.contacts, r.db.contacts, id)
      && r.db.contacts[id] == db.contacts[id].(isResponded := true)
  {
    match Gate(db, p, Home)
    case Some(denied) => Step(db, denied)
    case None =>
      if id !in db.contacts then Step(db, NotFound)
      else Step(db.(contacts := db.contacts[id := db.contacts[id].(isResponded := true)]), Ok(AdminPage))
  }

  /** `delete_contact/<id>`: the message is removed, nothing else. */
  function DeleteContact(db: Db, p: Principal, id: Id): (r: Step)
    ensures !IsAdmin(db, p) ==> r == Step(db, Gate(db, p, Home).value)
    ensures IsAdmin(db, p) && id !in db.contacts ==> r == Step(db, NotFound)
    ensures IsAdmin(db, p) && id in db.contacts ==>
      && r.out == Ok(AdminPage)
      && r.db == db.(contacts := r.db.contacts)
      && r.db.contacts.Keys == db.contacts.Keys - {id}
      && (forall k :: k in r.db.contacts ==> r.db.contacts[k] == db.contacts[k])
  {
    match Gate(db, p, Home)
    case Some(denied) => Step(db, denied)
    case None =>
      if id !in db.contacts then Step(db, NotFound)
      else Step(db.(contacts := db.contacts - {id}), Ok(AdminPage))
  }

  /** The two flags are independent: marking read and marking responded give
      the same database in either order. */
  lemma ReadAndRespondedCommute(db: Db, p: Principal, id: Id)
    ensures MarkContactResponded(MarkContactRead(db, p, id).db, p, id).db
         == MarkContactRead(MarkContactResponded(db, p, id).db, p, id).db
  {
  }

  /** Marking read twice is marking read once. */
  lemma MarkReadIdempotent(db: Db, p: Principal, id: Id)
    ensures MarkContactRead(MarkContactRead(db, p, id).db, p, id) == MarkContactRead(db, p, id)
  {
  }
}
