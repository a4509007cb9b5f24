/** The admin dashboard's figures: users, users awaiting approval, contact
    messages, unread messages. */
module Dashboard {
  import opened Records
  import Identity
  import Inbox

  /** The accounts awaiting approval. */
  function Pending(users: map<Id, User>): set<Id> {
    set k | k in users && !users[k].approved
  }

  /** The messages nobody has marked read. */
  function Unread(contacts: map<Id, Contact>): set<Id> {
    set k | k in contacts && !contacts[k].isRead
  }

  /** `User.query.filter_by(approved=False).count()`, at most the number of users. */
  function PendingCount(users: map<Id, User>): (r: nat)
    ensures r <= |users|
  {
    SubsetCard(Pending(users), users.Keys);
    assert |users.Keys| == |users|;
    |Pending(users)|
  }

  /** `Contact.query.filter_by(is_read=False).count()`, at most the number of messages. */
  function UnreadCount(contacts: map<Id, Contact>): (r: nat)
    ensures r <= |contacts|
  {
    SubsetCard(Unread(contacts), contacts.Keys);
    assert |contacts.Keys| == |contacts|;
    |Unread(contacts)|
  }

  datatype Stats = Stats(totalUsers: nat, pendingUsers: nat, totalContacts: nat, unreadContacts: nat)

  /** What `admin` shows: the figures, or the refusal. */
  datatype Page = Denied(out: Outcome) | Shown(stats: Stats)

  lemma {:induction false} SubsetCard<T>(a: set<T>, b: set<T>)
    requires a <= b
    ensures |a| <= |b|
    decreases |a|
  {
    if a != {} {
      var x :| x in a;
      SubsetCard(a - {x}, b - {x});
    }
  }

  /** `admin`: only an admin sees the figures (others are sent to the blog
      list); pending users never outnumber users, unread messages never
      outnumber messages. */
  function AdminDashboard(db: Db, p: Principal): (r: Page)
    ensures r.Shown? <==> IsAdmin(db, p)
    ensures r.Denied? ==> r.out == Gate(db, p, BlogList).value
    ensures r.Shown? ==>
      && r.stats.totalUsers == |db.users| && r.stats.totalContacts == |db.contacts|
      && r.stats.pendingUsers == |Pending(db.users)| && r.stats.unreadContacts == |Unread(db.contacts)|
      && r.stats.pendingUsers <= r.stats.totalUsers
      && r.stats.unreadContacts <= r.stats.totalContacts
  {
    match Gate(db, p, BlogList)
    case Some(denied) => Denied(denied)
    case None =>
      Shown(Stats(|db.users|, PendingCount(db.users), |db.contacts|, UnreadCount(db.contacts)))
  }

  lemma RemoveOne<T>(s: set<T>, x: T)
    requires x in s
    ensures |s - {x}| == |s| - 1
  {
    assert s == (s - {x}) + {x};
  }

  /** Approving a pending account lowers the pending figure by one; approving
      an approved one leaves it. */
  lemma ApproveLowersPending(db: Db, p: Principal, id: Id)
    requires IsAdmin(db, p) && id in db.users
    ensures PendingCount(Identity.ApproveUser(db, p, id).db.users)
         == PendingCount(db.users) - (if db.users[id].approved then 0 else 1)
  {
    var after := Identity.ApproveUser(db, p, id).db.users;
    assert Pending(after) == Pending(db.users) - {id};
    if !db.users[id].approved {
      RemoveOne(Pending(db.users), id);
    }
  }

  /** Marking an unread message read lowers the unread figure by one. */
  lemma MarkReadLowersUnread(db: Db, p: Principal, id: Id)
    requires IsAdmin(db, p) && id in db.contacts
    ensures UnreadCount(Inbox.MarkContactRead(db, p, id).db.contacts)
         == UnreadCount(db.contacts) - (if db.contacts[id].isRead then 0 else 1)
  {
    var after := Inbox.MarkContactRead(db, p, id).db.contacts;
    assert Unread(after) == Unread(db.contacts) - {id};
    if !db.contacts[id].isRead {
      RemoveOne(Unread(db.contacts), id);
    }
  }

  /** A new message raises both the message and the unread figures by one. */
  lemma SubmitRaisesUnread(db: Db, name: string, email: string, subject: string, message: string, now: Time)
    ensures var after := Inbox.SubmitContact(db, name, email, subject, message, now).db.contacts;
            |after| == |db.contacts| + 1 && UnreadCount(after) == UnreadCount(db.contacts) + 1
  {
    var id := NextId(db.contacts.Keys);
    var after := Inbox.SubmitContact(db, name, email, subject, message, now).db.contacts;
    assert Unread(after) == Unread(db.contacts) + {id};
    assert after.Keys == db.contacts.Keys + {id};
    assert |after.Keys| == |after| && |db.contacts.Keys| == |db.contacts|;
  }
}
