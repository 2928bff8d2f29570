/**
 * The discussion and reply handlers of the API server, with the document
 * database reduced to in-memory tables (sequences in insertion order).
 *
 * The invariant that makes the handlers worth verifying: every stored
 * discussion's `replies` counter equals the number of stored replies that
 * point at it. `create_reply` and `delete_reply` keep it by adjusting the
 * counter, `delete_discussion` by cascading to the replies first, and the
 * 404 paths by changing nothing.
 */
module DiscussionStore {
  import opened Basics
  import opened Serialization

  type Id = string

  const ANONYMOUS: string := "Anonymous"

  // ---------------------------------------------------------------------
  // Records and requests
  // ---------------------------------------------------------------------

  datatype Discussion = Discussion(
    id: Id, title: string, content: string, author: Option<string>,
    replies: int, upvotes: int, createdAt: Instant)

  datatype Reply = Reply(
    id: Id, discussionId: Id, content: string, author: Option<string>,
    upvotes: int, createdAt: Instant)

  datatype Note = Note(
    id: Id, title: string, subject: string, semester: string,
    size: Option<string>, fileUrl: Option<string>, uploadedAt: Instant)

  /** Whether a JSON request body carried a field at all. */
  datatype Field<T> = Omitted | Given(value: T)

  datatype DiscussionCreate = DiscussionCreate(title: string, content: string, author: Field<Option<string>>)

  datatype ReplyCreate = ReplyCreate(content: string, author: Field<Option<string>>)

  /** HTTP status of a handler: 200, or the 404 it raises. */
  datatype Status = Ok | NotFound

  /** The request models' `author` default: "Anonymous" when the field is
      left out, and whatever was sent (possibly null) otherwise. */
  function AuthorOf(f: Field<Option<string>>): Option<string> {
    match f
    case Omitted => Some(ANONYMOUS)
    case Given(a) => a
  }

  // ---------------------------------------------------------------------
  // Table queries
  // ---------------------------------------------------------------------

  predicate HasDiscussion(ds: seq<Discussion>, id: Id) {
    exists i :: 0 <= i < |ds| && ds[i].id == id
  }

  predicate HasReply(rs: seq<Reply>, id: Id) {
    exists k :: 0 <= k < |rs| && rs[k].id == id
  }

  /** `find_one({"id": id})` on the discussions table: the first match. */
  function FindDiscussion(ds: seq<Discussion>, id: Id): (r: Option<nat>)
    ensures r.Some? ==> r.value < |ds| && ds[r.value].id == id
    ensures r.Some? ==> forall j :: 0 <= j < r.value ==> ds[j].id != id
    ensures r.None? <==> !HasDiscussion(ds, id)
  {
    if ds == [] then None
    else match FindDiscussion(ds[..|ds| - 1], id)
      case Some(i) => Some(i)
      case None =>
        assert forall j :: 0 <= j < |ds| - 1 ==> ds[j] == ds[..|ds| - 1][j];
        if ds[|ds| - 1].id == id then Some(|ds| - 1) else None
  }

  /** `find_one({"id": id})` on the replies table: the first match. */
  function FindReply(rs: seq<Reply>, id: Id): (r: Option<nat>)
    ensures r.Some? ==> r.value < |rs| && rs[r.value].id == id
    ensures r.Some? ==> forall j :: 0 <= j < r.value ==> rs[j].id != id
    ensures r.None? <==> !HasReply(rs, id)
  {
    if rs == [] then None
    else match FindReply(rs[..|rs| - 1], id)
      case Some(k) => Some(k)
      case None =>
        assert forall j :: 0 <= j < |rs| - 1 ==> rs[j] == rs[..|rs| - 1][j];
        if rs[|rs| - 1].id == id then Some(|rs| - 1) else None
  }

  /** Number of stored replies whose `discussion_id` is `did`. */
  function CountReplies(rs: seq<Reply>, did: Id): nat {
    if rs == [] then 0
    else CountReplies(rs[..|rs| - 1], did) + (if rs[|rs| - 1].discussionId == did then 1 else 0)
  }

  /** `find({"discussion_id": did})`, in table order. */
  function RepliesOf(rs: seq<Reply>, did: Id): (r: seq<Reply>)
    ensures forall x :: x in r <==> x in rs && x.discussionId == did
  {
    if rs == [] then []
    else
      var init := RepliesOf(rs[..|rs| - 1], did);
      assert rs == rs[..|rs| - 1] + [rs[|rs| - 1]];
      if rs[|rs| - 1].discussionId == did then init + [rs[|rs| - 1]] else init
  }

  /** What `delete_many({"discussion_id": did})` leaves in the table. */
  function WithoutRepliesOf(rs: seq<Reply>, did: Id): (r: seq<Reply>)
    ensures forall x :: x in r <==> x in rs && x.discussionId != did
  {
    if rs == [] then []
    else
      var init := WithoutRepliesOf(rs[..|rs| - 1], did);
      assert rs == rs[..|rs| - 1] + [rs[|rs| - 1]];
      if rs[|rs| - 1].discussionId == did then init else init + [rs[|rs| - 1]]
  }

  /** What `delete_one` leaves when it removes the element at index `k`. */
  function RemoveAt<T>(s: seq<T>, k: nat): (r: seq<T>)
    requires k < |s|
    ensures |r| == |s| - 1
    ensures forall i :: 0 <= i < |r| ==> r[i] == s[if i < k then i else i + 1]
  {
    s[..k] + s[k + 1..]
  }

  // ---------------------------------------------------------------------
  // The store invariant
  // ---------------------------------------------------------------------

  ghost predicate UniqueDiscussionIds(ds: seq<Discussion>) {
    forall i, j :: 0 <= i < j < |ds| ==> ds[i].id != ds[j].id
  }

  ghost predicate UniqueReplyIds(rs: seq<Reply>) {
    forall i, j :: 0 <= i < j < |rs| ==> rs[i].id != rs[j].id
  }

  /** Every reply points at a stored discussion. */
  ghost predicate NoOrphans(ds: seq<Discussion>, rs: seq<Reply>) {
    forall k :: 0 <= k < |rs| ==> HasDiscussion(ds, rs[k].discussionId)
  }

  /** Every discussion's `replies` counter is its number of stored replies. */
  ghost predicate CountsAgree(ds: seq<Discussion>, rs: seq<Reply>) {
    forall i :: 0 <= i < |ds| ==> ds[i].replies == CountReplies(rs, ds[i].id)
  }

  ghost predicate Consistent(ds: seq<Discussion>, rs: seq<Reply>) {
    UniqueDiscussionIds(ds) && UniqueReplyIds(rs) && NoOrphans(ds, rs) && CountsAgree(ds, rs)
  }

  // ---------------------------------------------------------------------
  // Counting lemmas
  // ---------------------------------------------------------------------

  lemma CountAppend(rs: seq<Reply>, r: Reply, did: Id)
    ensures CountReplies(rs + [r], did) == CountReplies(rs, did) + (if r.discussionId == did then 1 else 0)
  {
    assert (rs + [r])[..|rs|] == rs;
  }

  lemma {:induction false} CountRemoveAt(rs: seq<Reply>, k: nat, did: Id)
    requires k < |rs|
    ensures CountReplies(RemoveAt(rs, k), did) + (if rs[k].discussionId == did then 1 else 0) == CountReplies(rs, did)
  {
    var n := |rs| - 1;
    if k == n {
      assert RemoveAt(rs, k) == rs[..n];
    } else {
      assert RemoveAt(rs, k) == RemoveAt(rs[..n], k) + [rs[n]];
      CountRemoveAt(rs[..n], k, did);
      CountAppend(RemoveAt(rs[..n], k), rs[n], did);
    }
  }

  lemma {:induction false} CountAbsent(rs: seq<Reply>, did: Id)
    requires forall k :: 0 <= k < |rs| ==> rs[k].discussionId != did
    ensures CountReplies(rs, did) == 0
  {
    if rs != [] {
      CountAbsent(rs[..|rs| - 1], did);
    }
  }

  lemma {:induction false} CountWithout(rs: seq<Reply>, did: Id, e: Id)
    ensures CountReplies(WithoutRepliesOf(rs, did), e) == if e == did then 0 else CountReplies(rs, e)
  {
    if rs != [] {
      var n := |rs| - 1;
      CountWithout(rs[..n], did, e);
      if rs[n].discussionId != did {
        CountAppend(WithoutRepliesOf(rs[..n], did), rs[n], e);
      }
    }
  }

  /** The counter a consistent store keeps is the length of what
      `get_replies` returns. */
  lemma {:induction false} CountIsRepliesOfLength(rs: seq<Reply>, did: Id)
    ensures |RepliesOf(rs, did)| == CountReplies(rs, did)
  {
    if rs != [] {
      CountIsRepliesOfLength(rs[..|rs| - 1], did);
    }
  }

  lemma {:induction false} WithoutAbsentIsIdentity(rs: seq<Reply>, did: Id)
    requires forall k :: 0 <= k < |rs| ==> rs[k].discussionId != did
    ensures WithoutRepliesOf(rs, did) == rs
  {
    if rs != [] {
      WithoutAbsentIsIdentity(rs[..|rs| - 1], did);
      assert rs == rs[..|rs| - 1] + [rs[|rs| - 1]];
    }
  }

  lemma {:induction false} WithoutKeepsUniqueIds(rs: seq<Reply>, did: Id)
    requires UniqueReplyIds(rs)
    ensures UniqueReplyIds(WithoutRepliesOf(rs, did))
  {
    if rs != [] {
      var n := |rs| - 1;
      var init := WithoutRepliesOf(rs[..n], did);
      WithoutKeepsUniqueIds(rs[..n], did);
      if rs[n].discussionId != did {
        forall i | 0 <= i < |init| ensures init[i].id != rs[n].id {
          assert init[i] in rs[..n];
        }
      }
    }
  }

  // ---------------------------------------------------------------------
  // Each handler's effect keeps the invariant
  // ---------------------------------------------------------------------

  lemma AddDiscussionKeepsConsistent(ds: seq<Discussion>, rs: seq<Reply>, d: Discussion)
    requires Consistent(ds, rs) && !HasDiscussion(ds, d.id) && d.replies == 0
    ensures Consistent(ds + [d], rs)
  {
    var ds' := ds + [d];
    CountAbsent(rs, d.id);
    forall k | 0 <= k < |rs| ensures HasDiscussion(ds', rs[k].discussionId) {
      var i :| 0 <= i < |ds| && ds[i].id == rs[k].discussionId;
      assert ds'[i] == ds[i];
    }
    assert forall i :: 0 <= i < |ds| ==> ds'[i] == ds[i];
  }

  lemma AddReplyKeepsConsistent(ds: seq<Discussion>, rs: seq<Reply>, i: nat, r: Reply)
    requires Consistent(ds, rs) && i < |ds| && ds[i].id == r.discussionId && !HasReply(rs, r.id)
    ensures Consistent(ds[i := ds[i].(replies := ds[i].replies + 1)], rs + [r])
  {
    var ds', rs' := ds[i := ds[i].(replies := ds[i].replies + 1)], rs + [r];
    forall j | 0 <= j < |ds'| ensures ds'[j].replies == CountReplies(rs', ds'[j].id) {
      CountAppend(rs, r, ds[j].id);
    }
    forall k | 0 <= k < |rs'| ensures HasDiscussion(ds', rs'[k].discussionId) {
      var p :| 0 <= p < |ds| && ds[p].id == rs'[k].discussionId;
      assert ds'[p].id == ds[p].id;
    }
  }

  lemma RemoveReplyKeepsConsistent(ds: seq<Discussion>, rs: seq<Reply>, k: nat, p: nat)
    requires Consistent(ds, rs) && k < |rs| && p < |ds| && ds[p].id == rs[k].discussionId
    ensures Consistent(ds[p := ds[p].(replies := ds[p].replies - 1)], RemoveAt(rs, k))
  {
    var ds', rs' := ds[p := ds[p].(replies := ds[p].replies - 1)], RemoveAt(rs, k);
    forall j | 0 <= j < |ds'| ensures ds'[j].replies == CountReplies(rs', ds'[j].id) {
      CountRemoveAt(rs, k, ds[j].id);
    }
    forall m | 0 <= m < |rs'| ensures HasDiscussion(ds', rs'[m].discussionId) {
      var q :| 0 <= q < |ds| && ds[q].id == rs'[m].discussionId;
      assert ds'[q].id == ds[q].id;
    }
  }

  lemma RemoveDiscussionKeepsConsistent(ds: seq<Discussion>, rs: seq<Reply>, i: nat)
    requires Consistent(ds, rs) && i < |ds|
    ensures Consistent(RemoveAt(ds, i), WithoutRepliesOf(rs, ds[i].id))
  {
    var did := ds[i].id;
    var ds', rs' := RemoveAt(ds, i), WithoutRepliesOf(rs, did);
    WithoutKeepsUniqueIds(rs, did);
    forall j | 0 <= j < |ds'| ensures ds'[j].replies == CountReplies(rs', ds'[j].id) {
      CountWithout(rs, did, ds'[j].id);
    }
    forall m | 0 <= m < |rs'| ensures HasDiscussion(ds', rs'[m].discussionId) {
      assert rs'[m] in rs;
      var q :| 0 <= q < |ds| && ds[q].id == rs'[m].discussionId;
      assert q != i;
      assert ds'[if q < i then q else q - 1] == ds[q];
    }
  }

  lemma UpvoteDiscussionKeepsConsistent(ds: seq<Discussion>, rs: seq<Reply>, i: nat)
    requires Consistent(ds, rs) && i < |ds|
    ensures Consistent(ds[i := ds[i].(upvotes := ds[i].upvotes + 1)], rs)
  {
    var ds' := ds[i := ds[i].(upvotes := ds[i].upvotes + 1)];
    forall k | 0 <= k < |rs| ensures HasDiscussion(ds', rs[k].discussionId) {
      var p :| 0 <= p < |ds| && ds[p].id == rs[k].discussionId;
      assert ds'[p].id == ds[p].id;
    }
  }

  lemma UpvoteReplyKeepsConsistent(ds: seq<Discussion>, rs: seq<Reply>, k: nat)
    requires Consistent(ds, rs) && k < |rs|
    ensures Consistent(ds, rs[k := rs[k].(upvotes := rs[k].upvotes + 1)])
  {
    var rs' := rs[k := rs[k].(upvotes := rs[k].upvotes + 1)];
    forall j | 0 <= j < |ds| ensures CountReplies(rs', ds[j].id) == CountReplies(rs, ds[j].id) {
      CountRemoveAt(rs, k, ds[j].id);
      CountRemoveAt(rs', k, ds[j].id);
      assert RemoveAt(rs', k) == RemoveAt(rs, k);
    }
  }

  /** Under the invariant a discussion that is not stored has no replies,
      so the cascade `delete_discussion` runs before its 404 removes nothing. */
  lemma CascadeOnAbsentIsNoOp(ds: seq<Discussion>, rs: seq<Reply>, did: Id)
    requires NoOrphans(ds, rs) && !HasDiscussion(ds, did)
    ensures WithoutRepliesOf(rs, did) == rs
  {
    forall k | 0 <= k < |rs| ensures rs[k].discussionId != did {
      assert HasDiscussion(ds, rs[k].discussionId);
    }
    WithoutAbsentIsIdentity(rs, did);
  }

  // ---------------------------------------------------------------------
  // The server's tables and handlers
  // ---------------------------------------------------------------------

  class Store {
    var discussions: seq<Discussion>
    var replies: seq<Reply>
    var notes: seq<Note>

    ghost predicate Valid()
      reads this
    {
      Consistent(discussions, replies)
    }

    /** An empty database satisfies the invariant. */
    constructor ()
      ensures Valid()
      ensures discussions == [] && replies == [] && notes == []
    {
      discussions, replies, notes := [], [], [];
    }

    /** `GET /discussions`: every discussion, newest first. */
    method GetDiscussions() returns (r: seq<Discussion>)
      ensures multiset(r) == multiset(discussions)
      ensures forall i, j :: 0 <= i < j < |r| ==> r[i].createdAt >= r[j].createdAt
    {
      r := SortByKey(discussions, (d: Discussion) => -(d.createdAt as int));
    }

    /** `POST /discussions`: `freshId` and `now` stand for `uuid4()` and
        the clock; counters start at zero. */
    method CreateDiscussion(req: DiscussionCreate, freshId: Id, now: Instant) returns (d: Discussion)
      requires Valid() && !HasDiscussion(discussions, freshId)
      modifies this
      ensures Valid()
      ensures d == Discussion(freshId, req.title, req.content, AuthorOf(req.author), 0, 0, now)
      ensures discussions == old(discussions) + [d]
      ensures replies == old(replies) && notes == old(notes)
    {
      d := Discussion(freshId, req.title, req.content, AuthorOf(req.author), 0, 0, now);
      AddDiscussionKeepsConsistent(discussions, replies, d);
      discussions := discussions + [d];
    }

    /** `GET /discussions/{id}`: `None` is the 404. */
    method GetDiscussion(id: Id) returns (r: Option<Discussion>)
      ensures r.None? <==> !HasDiscussion(discussions, id)
      ensures r.Some? ==> r.value in discussions && r.value.id == id
    {
      var i := FindDiscussion(discussions, id);
      r := if i.Some? then Some(discussions[i.value]) else None;
    }

    /** `DELETE /discussions/{id}`: the replies go first, unconditionally;
        then the discussion, or a 404 if it is not there. */
    method DeleteDiscussion(id: Id) returns (status: Status)
      requires Valid()
      modifies this
      ensures Valid()
      ensures replies == WithoutRepliesOf(old(replies), id)
      ensures status == NotFound <==> !HasDiscussion(old(discussions), id)
      ensures status == NotFound ==> discussions == old(discussions) && replies == old(replies)
      ensures status == Ok ==>
        discussions == RemoveAt(old(discussions), old(FindDiscussion(discussions, id)).value)
      ensures notes == old(notes)
    {
      var i := FindDiscussion(discussions, id);
      if i.None? {
        CascadeOnAbsentIsNoOp(discussions, replies, id);
      } else {
        RemoveDiscussionKeepsConsistent(discussions, replies, i.value);
      }
      replies := WithoutRepliesOf(replies, id);
      if i.None? {
        status := NotFound;
      } else {
        discussions := RemoveAt(discussions, i.value);
        status := Ok;
      }
    }

    /** `GET /discussions/{id}/replies`: exactly that discussion's replies,
        oldest first; an unknown id gives the empty list, not a 404. */
    method GetReplies(did: Id) returns (r: seq<Reply>)
      ensures multiset(r) == multiset(RepliesOf(replies, did))
      ensures forall x :: x in r <==> x in replies && x.discussionId == did
      ensures forall i, j :: 0 <= i < j < |r| ==> r[i].createdAt <= r[j].createdAt
      ensures |r| == CountReplies(replies, did)
    {
      var mine := RepliesOf(replies, did);
      r := SortByKey(mine, (x: Reply) => x.createdAt);
      CountIsRepliesOfLength(replies, did);
      assert forall x :: x in r <==> x in multiset(mine);
    }

    /** `POST /discussions/{did}/replies`: 404 unless the discussion exists;
        otherwise one reply is added and its parent's counter goes up by one. */
    method CreateReply(did: Id, req: ReplyCreate, freshId: Id, now: Instant) returns (status: Status, r: Option<Reply>)
      requires Valid() && !HasReply(replies, freshId)
      modifies this
      ensures Valid()
      ensures status == NotFound <==> !HasDiscussion(old(discussions), did)
      ensures status == NotFound ==>
        r == None && discussions == old(discussions) && replies == old(replies)
      ensures status == Ok ==>
        && r == Some(Reply(freshId, did, req.content, AuthorOf(req.author), 0, now))
        && replies == old(replies) + [r.value]
        && var i := old(FindDiscussion(discussions, did)).value;
           discussions == old(discussions)[i := old(discussions)[i].(replies := old(discussions)[i].replies + 1)]
      ensures notes == old(notes)
    {
      var i := FindDiscussion(discussions, did);
      if i.None? {
        return NotFound, None;
      }
      var reply := Reply(freshId, did, req.content, AuthorOf(req.author), 0, now);
      AddReplyKeepsConsistent(discussions, replies, i.value, reply);
      replies := replies + [reply];
      var parent := discussions[i.value];
      discussions := discussions[i.value := parent.(replies := parent.replies + 1)];
      status, r := Ok, Some(reply);
    }

    /** `DELETE /replies/{rid}`: 404 unless the reply exists; otherwise it is
        removed and its parent's counter goes down by one. */
    method DeleteReply(rid: Id) returns (status: Status)
      requires Valid()
      modifies this
      ensures Valid()
      ensures status == NotFound <==> !HasReply(old(replies), rid)
      ensures status == NotFound ==> discussions == old(discussions) && replies == old(replies)
      ensures status == Ok ==>
        var k := old(FindReply(replies, rid)).value;
        var parentId := old(replies)[k].discussionId;
        && replies == RemoveAt(old(replies), k)
        && HasDiscussion(old(discussions), parentId)
        && var p := old(FindDiscussion(discussions, parentId)).value;
           discussions == old(discussions)[p := old(discussions)[p].(replies := old(discussions)[p].replies - 1)]
      ensures notes == old(notes)
    {
      var k := FindReply(replies, rid);
      if k.None? {
        return NotFound;
      }
      var parentId := replies[k.value].discussionId;
      assert HasDiscussion(discussions, parentId);
      var p := FindDiscussion(discussions, parentId);
      if p.Some? {
        RemoveReplyKeepsConsistent(discussions, replies, k.value, p.value);
        var parent := discussions[p.value];
        discussions := discussions[p.value := parent.(replies := parent.replies - 1)];
      }
      replies := RemoveAt(replies, k.value);
      status := Ok;
    }

    /** `POST /discussions/{id}/upvote`: 404 when nothing matched. */
    method UpvoteDiscussion(id: Id) returns (status: Status)
      requires Valid()
      modifies this
      ensures Valid()
      ensures status == NotFound <==> !HasDiscussion(old(discussions), id)
      ensures status == NotFound ==> discussions == old(discussions)
      ensures status == Ok ==>
        var i := old(FindDiscussion(discussions, id)).value;
        discussions == old(discussions)[i := old(discussions)[i].(upvotes := old(discussions)[i].upvotes + 1)]
      ensures replies == old(replies) && notes == old(notes)
    {
      var i := FindDiscussion(discussions, id);
      if i.None? {
        return NotFound;
      }
      UpvoteDiscussionKeepsConsistent(discussions, replies, i.value);
      var d := discussions[i.value];
      discussions := discussions[i.value := d.(upvotes := d.upvotes + 1)];
      status := Ok;
    }

    /** `POST /replies/{rid}/upvote`: 404 when nothing matched. */
    method UpvoteReply(rid: Id) returns (status: Status)
      requires Valid()
      modifies this
      ensures Valid()
      ensures status == NotFound <==> !HasReply(old(replies), rid)
      ensures status == NotFound ==> replies == old(replies)
      ensures status == Ok ==>
        var k := old(FindReply(replies, rid)).value;
        replies == old(replies)[k := old(replies)[k].(upvotes := old(replies)[k].upvotes + 1)]
      ensures discussions == old(discussions) && notes == old(notes)
    {
      var k := FindReply(replies, rid);
      if k.None? {
        return NotFound;
      }
      UpvoteReplyKeepsConsistent(discussions, replies, k.value);
      var r := replies[k.value];
      replies := replies[k.value := r.(upvotes := r.upvotes + 1)];
      status := Ok;
    }

    /** `GET /notes`: a filter is applied only when its parameter is a
        non-empty string; the result is newest first. */
    method GetNotes(subject: Option<string>, semester: Option<string>) returns (r: seq<Note>)
      ensures forall n :: n in r <==> n in notes && NoteMatches(n, subject, semester)
      ensures multiset(r) == multiset(NotesMatching(notes, subject, semester))
      ensures forall i, j :: 0 <= i < j < |r| ==> r[i].uploadedAt >= r[j].uploadedAt
    {
      var matching := NotesMatching(notes, subject, semester);
      r := SortByKey(matching, (n: Note) => -(n.uploadedAt as int));
      assert forall n :: n in r <==> n in multiset(matching);
    }
  }

  // ---------------------------------------------------------------------
  // get_notes filtering
  // ---------------------------------------------------------------------

  /** Python truthiness of an optional query parameter: neither None nor "". */
  predicate Supplied(p: Option<string>) {
    p.Some? && p.value != ""
  }

  predicate NoteMatches(n: Note, subject: Option<string>, semester: Option<string>) {
    (Supplied(subject) ==> n.subject == subject.value) &&
    (Supplied(semester) ==> n.semester == semester.value)
  }

  /** `find(filter_query)` on the notes table, in table order. */
  function NotesMatching(ns: seq<Note>, subject: Option<string>, semester: Option<string>): (r: seq<Note>)
    ensures forall n :: n in r <==> n in ns && NoteMatches(n, subject, semester)
  {
    if ns == [] then []
    else
      var init := NotesMatching(ns[..|ns| - 1], subject, semester);
      assert ns == ns[..|ns| - 1] + [ns[|ns| - 1]];
      if NoteMatches(ns[|ns| - 1], subject, semester) then init + [ns[|ns| - 1]] else init
  }

  lemma {:induction false} NoFiltersKeepEveryNote(ns: seq<Note>, subject: Option<string>, semester: Option<string>)
    requires !Supplied(subject) && !Supplied(semester)
    ensures NotesMatching(ns, subject, semester) == ns
  {
    if ns != [] {
      NoFiltersKeepEveryNote(ns[..|ns| - 1], subject, semester);
      assert ns == ns[..|ns| - 1] + [ns[|ns| - 1]];
    }
  }

  // ---------------------------------------------------------------------
  // Stored documents
  // ---------------------------------------------------------------------

  function AuthorValue(a: Option<string>): Value {
    if a.Some? then Text(a.value) else Null
  }

  /** `discussion.dict()` */
  function DiscussionDocument(d: Discussion): Document {
    map["id" := Text(d.id), "title" := Text(d.title), "content" := Text(d.content),
        "author" := AuthorValue(d.author), "replies" := Number(d.replies),
        "upvotes" := Number(d.upvotes), "created_at" := Time(d.createdAt)]
  }

  /** `reply.dict()` */
  function ReplyDocument(r: Reply): Document {
    map["id" := Text(r.id), "discussion_id" := Text(r.discussionId), "content" := Text(r.content),
        "author" := AuthorValue(r.author), "upvotes" := Number(r.upvotes),
        "created_at" := Time(r.createdAt)]
  }

  /** Whatever the text fields hold, a stored discussion reads back as it
      was written: its only datetime sits under `created_at`. */
  lemma DiscussionDocumentRoundTrip(d: Discussion)
    ensures Parsed(Prepared(DiscussionDocument(d))) == DiscussionDocument(d)
  {
    var doc := DiscussionDocument(d);
    assert EndsWithAt("created_at");
    assert !EndsWithAt("id") && !EndsWithAt("title") && !EndsWithAt("content");
    assert !EndsWithAt("author") && !EndsWithAt("replies") && !EndsWithAt("upvotes");
    assert Restorable(doc);
    PrepareParseRoundTrip(doc);
  }

  lemma ReplyDocumentRoundTrip(r: Reply)
    ensures Parsed(Prepared(ReplyDocument(r))) == ReplyDocument(r)
  {
    var doc := ReplyDocument(r);
    assert EndsWithAt("created_at");
    assert !EndsWithAt("id") && !EndsWithAt("discussion_id") && !EndsWithAt("content");
    assert !EndsWithAt("author") && !EndsWithAt("upvotes");
    assert Restorable(doc);
    PrepareParseRoundTrip(doc);
  }
}
