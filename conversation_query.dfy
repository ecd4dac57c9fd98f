/**
 * The meaning of the query `ConversationQuery` builds: for one user, the
 * messages they can still see, grouped by the other party ("contact"),
 * with the largest message id of each group.
 */
module ConversationQuery {
  import opened Php

  /** One row of the message table, with the columns the query reads. */
  datatype Message = Message(
    id: nat,
    senderId: nat,
    receiverId: nat,
    isDeletedBySender: bool,
    isDeletedByReceiver: bool)

  /** The two database drivers the query has a contact expression for. */
  datatype Driver = MySql | PgSql

  /** The driver named by a connection's `driverName`; other drivers give no query. */
  function DriverOf(driverName: string): (r: Option<Driver>)
    ensures r == Some(MySql) <==> driverName == "mysql"
    ensures r == Some(PgSql) <==> driverName == "pgsql"
    ensures r.None? <==> driverName != "mysql" && driverName != "pgsql"
  {
    if driverName == "mysql" then Some(MySql)
    else if driverName == "pgsql" then Some(PgSql)
    else None
  }

  // ---------------------------------------------------------------------
  // The contact expression, in both SQL dialects

  /** MySQL's `IF(cond, a, b)`. */
  function SqlIf(cond: bool, a: nat, b: nat): nat
  {
    if cond then a else b
  }

  /** PostgreSQL's `CASE WHEN c1 THEN v1 ... ELSE otherwise END`: the value of the first true condition. */
  function SqlCase(whens: seq<(bool, nat)>, otherwise: nat): nat
  {
    if whens == [] then otherwise
    else if whens[0].0 then whens[0].1
    else SqlCase(whens[1..], otherwise)
  }

  /** A CASE yields the value of its first true WHEN. */
  lemma {:induction false} SqlCaseFirstTrue(whens: seq<(bool, nat)>, otherwise: nat, k: nat)
    requires k < |whens| && whens[k].0
    requires forall j :: 0 <= j < k ==> !whens[j].0
    ensures SqlCase(whens, otherwise) == whens[k].1
  {
    if k > 0 {
      assert !whens[0].0;
      var rest := whens[1..];
      assert rest[k - 1] == whens[k];
      assert forall j :: 0 <= j < k - 1 ==> rest[j] == whens[j + 1];
      SqlCaseFirstTrue(rest, otherwise, k - 1);
    }
  }

  /** A CASE none of whose WHENs holds yields its ELSE value. */
  lemma {:induction false} SqlCaseNoneTrue(whens: seq<(bool, nat)>, otherwise: nat)
    requires forall j :: 0 <= j < |whens| ==> !whens[j].0
    ensures SqlCase(whens, otherwise) == otherwise
  {
    if whens != [] {
      assert !whens[0].0;
      var rest := whens[1..];
      assert forall j :: 0 <= j < |rest| ==> rest[j] == whens[j + 1];
      SqlCaseNoneTrue(rest, otherwise);
    }
  }

  /** The `contact_id` column as the query writes it for driver `d`, with `:userId` bound to `u`. */
  function ContactExpression(d: Driver, m: Message, u: nat): nat
  {
    match d
    case MySql => SqlIf(m.senderId == u, m.receiverId, m.senderId)
    case PgSql => SqlCase([(m.senderId == u, m.receiverId)], m.senderId)
  }

  /** The other party of a message seen from user `u`: the receiver of what `u` sent, else the sender. */
  function Contact(m: Message, u: nat): nat
  {
    if m.senderId == u then m.receiverId else m.senderId
  }

  /** The MySQL and the PostgreSQL expression compute the same contact for every message. */
  lemma DialectsAgree(m: Message, u: nat)
    ensures ContactExpression(MySql, m, u) == Contact(m, u)
    ensures ContactExpression(PgSql, m, u) == Contact(m, u)
  {
    var whens := [(m.senderId == u, m.receiverId)];
    if m.senderId == u {
      SqlCaseFirstTrue(whens, m.senderId, 0);
    } else {
      SqlCaseNoneTrue(whens, m.senderId);
    }
  }

  /** `u` takes part in `m`. */
  predicate Involved(m: Message, u: nat)
  {
    m.senderId == u || m.receiverId == u
  }

  /** On a message between two different users, the contact is the one who is not `u`. */
  lemma ContactIsOtherParty(m: Message, u: nat)
    requires Involved(m, u) && m.senderId != m.receiverId
    ensures Contact(m, u) != u
    ensures {Contact(m, u), u} == {m.senderId, m.receiverId}
  {
  }

  // ---------------------------------------------------------------------
  // The WHERE clause

  /** `u` is the receiver and has not deleted it, or `u` is the sender and has not deleted it. */
  predicate Visible(m: Message, u: nat)
  {
    (m.receiverId == u && !m.isDeletedByReceiver) || (m.senderId == u && !m.isDeletedBySender)
  }

  /** Only the user's own side of a message decides whether they see it; a stranger never does. */
  lemma VisibleOnlyOwnSide(m: Message, u: nat)
    ensures Visible(m, u) ==> Involved(m, u)
    ensures m.senderId != u ==> (Visible(m, u) <==> m.receiverId == u && !m.isDeletedByReceiver)
    ensures m.receiverId != u ==> (Visible(m, u) <==> m.senderId == u && !m.isDeletedBySender)
  {
  }

  /** The rows the WHERE clause keeps, in table order. */
  function Where(msgs: seq<Message>, u: nat): seq<Message>
  {
    if msgs == [] then []
    else
      var front := Where(msgs[..|msgs| - 1], u);
      var m := msgs[|msgs| - 1];
      if Visible(m, u) then front + [m] else front
  }

  /** The WHERE clause keeps exactly the messages `u` can see. */
  lemma {:induction false} WhereKeepsVisible(msgs: seq<Message>, u: nat)
    ensures forall m :: m in Where(msgs, u) <==> m in msgs && Visible(m, u)
  {
    if msgs != [] {
      var front := msgs[..|msgs| - 1];
      WhereKeepsVisible(front, u);
      assert msgs == front + [msgs[|msgs| - 1]];
    }
  }

  /** Filtering a table in two parts is filtering each part. */
  lemma {:induction false} WhereAppend(a: seq<Message>, b: seq<Message>, u: nat)
    ensures Where(a + b, u) == Where(a, u) + Where(b, u)
  {
    if b == [] {
      assert a + b == a;
    } else {
      var b' := b[..|b| - 1];
      var m := b[|b| - 1];
      assert (a + b)[..|a + b| - 1] == a + b';
      assert (a + b)[|a + b| - 1] == m;
      WhereAppend(a, b', u);
      if Visible(m, u) {
        assert Where(a + b, u) == Where(a + b', u) + [m];
        assert Where(b, u) == Where(b', u) + [m];
      } else {
        assert Where(a + b, u) == Where(a + b', u);
        assert Where(b, u) == Where(b', u);
      }
    }
  }

  // ---------------------------------------------------------------------
  // SELECT and GROUP BY

  /** One selected row before grouping: the contact and the message id. */
  datatype Row = Row(contactId: nat, id: nat)

  /** The selected columns of each kept row. */
  function Select(d: Driver, kept: seq<Message>, u: nat): (rows: seq<Row>)
    ensures |rows| == |kept|
    ensures forall i :: 0 <= i < |kept| ==> rows[i] == Row(Contact(kept[i], u), kept[i].id)
  {
    forall i | 0 <= i < |kept| ensures ContactExpression(d, kept[i], u) == Contact(kept[i], u) {
      DialectsAgree(kept[i], u);
    }
    seq(|kept|, i requires 0 <= i < |kept| => Row(ContactExpression(d, kept[i], u), kept[i].id))
  }

  function Max(a: nat, b: nat): nat
  {
    if a < b then b else a
  }

  /** `GROUP BY contact_id` with `MAX(id)`, folding the rows in table order. */
  function GroupByMax(rows: seq<Row>): map<nat, nat>
  {
    if rows == [] then map[]
    else
      var g := GroupByMax(rows[..|rows| - 1]);
      var last := rows[|rows| - 1];
      var c := last.contactId;
      g[c := if c in g then Max(g[c], last.id) else last.id]
  }

  /** One group per contact that occurs in the rows, and no other. */
  lemma {:induction false} GroupByMaxKeys(rows: seq<Row>)
    ensures forall c :: c in GroupByMax(rows) <==> exists i :: 0 <= i < |rows| && rows[i].contactId == c
  {
    if rows != [] {
      var front := rows[..|rows| - 1];
      GroupByMaxKeys(front);
      assert forall i :: 0 <= i < |front| ==> rows[i] == front[i];
    }
  }

  /** Each group's value is the id of one of that contact's rows, and no row of the contact has a larger id. */
  lemma {:induction false} GroupByMaxIsMax(rows: seq<Row>)
    ensures forall c :: c in GroupByMax(rows) ==>
      exists i :: 0 <= i < |rows| && rows[i].contactId == c && rows[i].id == GroupByMax(rows)[c]
    ensures forall i :: 0 <= i < |rows| ==>
      rows[i].contactId in GroupByMax(rows) && rows[i].id <= GroupByMax(rows)[rows[i].contactId]
  {
    if rows != [] {
      var front := rows[..|rows| - 1];
      var last := rows[|rows| - 1];
      GroupByMaxIsMax(front);
      var g := GroupByMax(front);
      var g' := GroupByMax(rows);
      assert forall i :: 0 <= i < |front| ==> rows[i] == front[i];
      forall c | c in g' ensures exists i :: 0 <= i < |rows| && rows[i].contactId == c && rows[i].id == g'[c] {
        if c != last.contactId || (c in g && g[c] >= last.id) {
          var i :| 0 <= i < |front| && front[i].contactId == c && front[i].id == g[c];
          assert rows[i] == front[i];
        } else {
          assert rows[|rows| - 1] == last;
        }
      }
    }
  }

  /** The result of the query for user `u` on the message table `msgs`. */
  function Conversations(d: Driver, msgs: seq<Message>, u: nat): map<nat, nat>
  {
    GroupByMax(Select(d, Where(msgs, u), u))
  }

  /**
   * What the query promises, stated on the messages alone: a contact is in
   * the result exactly when some message visible to `u` has that contact,
   * and its value is the id of one such message and no smaller than any.
   */
  ghost predicate IsConversationView(r: map<nat, nat>, msgs: seq<Message>, u: nat)
  {
    && (forall c :: c in r <==> exists m :: m in msgs && Visible(m, u) && Contact(m, u) == c)
    && (forall c :: c in r ==> exists m :: m in msgs && Visible(m, u) && Contact(m, u) == c && m.id == r[c])
    && (forall m :: m in msgs && Visible(m, u) ==> Contact(m, u) in r && m.id <= r[Contact(m, u)])
  }

  lemma ConversationsMeetSpec(d: Driver, msgs: seq<Message>, u: nat)
    ensures IsConversationView(Conversations(d, msgs, u), msgs, u)
  {
    var kept := Where(msgs, u);
    var rows := Select(d, kept, u);
    var r := Conversations(d, msgs, u);
    GroupByMaxKeys(rows);
    GroupByMaxIsMax(rows);
    WhereKeepsVisible(msgs, u);
    forall c | c in r
      ensures exists m :: m in msgs && Visible(m, u) && Contact(m, u) == c && m.id == r[c]
    {
      var i :| 0 <= i < |rows| && rows[i].contactId == c && rows[i].id == r[c];
      assert kept[i] in kept;
    }
    forall m | m in msgs && Visible(m, u)
      ensures Contact(m, u) in r && m.id <= r[Contact(m, u)]
    {
      var i :| 0 <= i < |kept| && kept[i] == m;
      assert rows[i] == Row(Contact(m, u), m.id);
    }
  }

  /** At most one map meets the promise, so it pins the query's result down completely. */
  lemma ConversationViewUnique(r1: map<nat, nat>, r2: map<nat, nat>, msgs: seq<Message>, u: nat)
    requires IsConversationView(r1, msgs, u) && IsConversationView(r2, msgs, u)
    ensures r1 == r2
  {
    forall c | c in r1 ensures c in r2 && r1[c] == r2[c] {
      var m1 :| m1 in msgs && Visible(m1, u) && Contact(m1, u) == c && m1.id == r1[c];
      var m2 :| m2 in msgs && Visible(m2, u) && Contact(m2, u) == c && m2.id == r2[c];
      assert m1.id <= r2[c] && m2.id <= r1[c];
    }
  }

  /** The result for `u` is a map from contacts to the last message id: exactly as IsConversationView states. */
  lemma ConversationsCharacterized(d: Driver, msgs: seq<Message>, u: nat, r: map<nat, nat>)
    ensures Conversations(d, msgs, u) == r <==> IsConversationView(r, msgs, u)
  {
    ConversationsMeetSpec(d, msgs, u);
    if IsConversationView(r, msgs, u) {
      ConversationViewUnique(Conversations(d, msgs, u), r, msgs, u);
    }
  }

  /** A contact is listed exactly when `u` can still see some message with them. */
  lemma ContactListedIff(d: Driver, msgs: seq<Message>, u: nat, c: nat)
    ensures c in Conversations(d, msgs, u) <==>
      exists i :: 0 <= i < |msgs| && Visible(msgs[i], u) && Contact(msgs[i], u) == c
  {
    ConversationsMeetSpec(d, msgs, u);
    if c in Conversations(d, msgs, u) {
      var m :| m in msgs && Visible(m, u) && Contact(m, u) == c;
      var i :| 0 <= i < |msgs| && msgs[i] == m;
    }
  }

  /** A contact all of whose messages `u` has deleted on their side is not listed. */
  lemma ContactGoneWhenAllHidden(d: Driver, msgs: seq<Message>, u: nat, c: nat)
    requires forall i :: 0 <= i < |msgs| && Contact(msgs[i], u) == c ==> !Visible(msgs[i], u)
    ensures c !in Conversations(d, msgs, u)
  {
    ContactListedIff(d, msgs, u, c);
  }

  /** Neither the dialect nor the order or repetition of rows changes the result: only the set of messages does. */
  lemma SameMessagesSameView(d1: Driver, d2: Driver, msgs1: seq<Message>, msgs2: seq<Message>, u: nat)
    requires forall m :: m in msgs1 <==> m in msgs2
    ensures Conversations(d1, msgs1, u) == Conversations(d2, msgs2, u)
  {
    ConversationsMeetSpec(d1, msgs1, u);
    ConversationsMeetSpec(d2, msgs2, u);
    ConversationViewUnique(Conversations(d1, msgs1, u), Conversations(d2, msgs2, u), msgs2, u);
  }

  /** A message between two other users never changes `u`'s result. */
  lemma UninvolvedMessageIgnored(d: Driver, msgs: seq<Message>, u: nat, m: Message)
    requires !Involved(m, u)
    ensures Conversations(d, msgs + [m], u) == Conversations(d, msgs, u)
  {
    WhereAppend(msgs, [m], u);
    assert Where([m], u) == [];
    assert Where(msgs + [m], u) == Where(msgs, u);
  }

  /** Two versions of a message that agree on everything `u`'s side of it shows. */
  predicate SameForUser(a: Message, b: Message, u: nat)
  {
    && a.id == b.id && a.senderId == b.senderId && a.receiverId == b.receiverId
    && (a.senderId == u ==> a.isDeletedBySender == b.isDeletedBySender)
    && (a.receiverId == u ==> a.isDeletedByReceiver == b.isDeletedByReceiver)
  }

  lemma {:induction false} WhereSameForUser(msgs1: seq<Message>, msgs2: seq<Message>, u: nat)
    requires |msgs1| == |msgs2|
    requires forall i :: 0 <= i < |msgs1| ==> SameForUser(msgs1[i], msgs2[i], u)
    ensures |Where(msgs1, u)| == |Where(msgs2, u)|
    ensures forall i :: 0 <= i < |Where(msgs1, u)| ==> SameForUser(Where(msgs1, u)[i], Where(msgs2, u)[i], u)
  {
    if msgs1 != [] {
      var n := |msgs1| - 1;
      WhereSameForUser(msgs1[..n], msgs2[..n], u);
      assert Visible(msgs1[n], u) == Visible(msgs2[n], u);
    }
  }

  /** The other party's deletion flags, and any flag of a stranger, never affect `u`'s result. */
  lemma OtherPartyFlagsIrrelevant(d: Driver, msgs1: seq<Message>, msgs2: seq<Message>, u: nat)
    requires |msgs1| == |msgs2|
    requires forall i :: 0 <= i < |msgs1| ==> SameForUser(msgs1[i], msgs2[i], u)
    ensures Conversations(d, msgs1, u) == Conversations(d, msgs2, u)
  {
    WhereSameForUser(msgs1, msgs2, u);
    var rows1 := Select(d, Where(msgs1, u), u);
    var rows2 := Select(d, Where(msgs2, u), u);
    assert rows1 == rows2;
  }

  // ---------------------------------------------------------------------
  // Deleting a message on one side

  /** Message `m` after user `u` has deleted it on their own side(s). */
  function HiddenFrom(m: Message, u: nat): (h: Message)
    ensures !Visible(h, u)
    ensures SameForUser(m, h, u) <==> !Visible(m, u)
  {
    m.(isDeletedBySender := m.isDeletedBySender || m.senderId == u,
       isDeletedByReceiver := m.isDeletedByReceiver || m.receiverId == u)
  }

  /** Hiding message `k` from `u` leaves `u` the rows of the table without that message. */
  lemma WhereHidden(msgs: seq<Message>, u: nat, k: nat)
    requires k < |msgs|
    ensures Where(msgs[k := HiddenFrom(msgs[k], u)], u) == Where(msgs[..k] + msgs[k + 1..], u)
  {
    var h := HiddenFrom(msgs[k], u);
    assert msgs[k := h] == msgs[..k] + ([h] + msgs[k + 1..]);
    WhereAppend(msgs[..k], [h] + msgs[k + 1..], u);
    WhereAppend([h], msgs[k + 1..], u);
    WhereAppend(msgs[..k], msgs[k + 1..], u);
    assert Where([h], u) == [];
  }

  /** Hiding message `k` from `u` gives `u` the result of the table without that message. */
  lemma HidingOneMessage(d: Driver, msgs: seq<Message>, u: nat, k: nat)
    requires k < |msgs|
    ensures Conversations(d, msgs[k := HiddenFrom(msgs[k], u)], u)
         == Conversations(d, msgs[..k] + msgs[k + 1..], u)
  {
    WhereHidden(msgs, u, k);
  }

  /**
   * After hiding message `k` from `u`, the result is the view of the
   * messages that remain, so a contact with another visible message stays
   * listed, with the largest id among the visible messages that remain.
   */
  lemma ConversationSurvivesHiding(d: Driver, msgs: seq<Message>, u: nat, k: nat, j: nat)
    requires k < |msgs| && j < |msgs| && j != k && Visible(msgs[j], u)
    ensures IsConversationView(Conversations(d, msgs[k := HiddenFrom(msgs[k], u)], u), msgs[..k] + msgs[k + 1..], u)
    ensures Contact(msgs[j], u) in Conversations(d, msgs[k := HiddenFrom(msgs[k], u)], u)
  {
    var rest := msgs[..k] + msgs[k + 1..];
    HidingOneMessage(d, msgs, u, k);
    ConversationsMeetSpec(d, rest, u);
    StillPresent(msgs, k, j);
  }

  /** Removing the message at `k` keeps every other message of the table. */
  lemma StillPresent(msgs: seq<Message>, k: nat, j: nat)
    requires k < |msgs| && j < |msgs| && j != k
    ensures msgs[j] in msgs[..k] + msgs[k + 1..]
  {
    var rest := msgs[..k] + msgs[k + 1..];
    if j < k {
      assert rest[j] == msgs[..k][j] == msgs[j];
    } else {
      assert msgs[k + 1..][j - k - 1] == msgs[j];
      assert rest[j - 1] == msgs[k + 1..][j - k - 1];
    }
  }

  /** Hiding a message from `u` does not change what anyone else's query returns. */
  lemma HidingIsOneSided(d: Driver, msgs: seq<Message>, u: nat, v: nat, k: nat)
    requires k < |msgs| && v != u
    ensures Conversations(d, msgs[k := HiddenFrom(msgs[k], u)], v) == Conversations(d, msgs, v)
  {
    var after := msgs[k := HiddenFrom(msgs[k], u)];
    assert forall i :: 0 <= i < |msgs| ==> SameForUser(after[i], msgs[i], v);
    OtherPartyFlagsIrrelevant(d, after, msgs, v);
  }

  /** One more row extends its contact's group, or opens a group for a new contact. */
  lemma GroupByMaxSnoc(rows: seq<Row>, r: Row)
    ensures GroupByMax(rows + [r]) == var g := GroupByMax(rows);
      g[r.contactId := if r.contactId in g then Max(g[r.contactId], r.id) else r.id]
  {
    assert (rows + [r])[..|rows|] == rows;
  }

  /** The table of a short dialogue: user 1 writes to user 2 (message 1), who answers (message 2). */
  function Dialogue(): seq<Message>
  {
    [Message(1, 1, 2, false, false), Message(2, 2, 1, false, false)]
  }

  /** User 1 lists user 2 with the answer as last message. */
  lemma DialogueSender(d: Driver)
    ensures Conversations(d, Dialogue(), 1) == map[2 := 2]
  {
    var msgs := Dialogue();
    assert msgs == [msgs[0]] + [msgs[1]];
    WhereAppend([msgs[0]], [msgs[1]], 1);
    assert Where([msgs[0]], 1) == [msgs[0]] by { WhereAppend([], [msgs[0]], 1); }
    assert Where([msgs[1]], 1) == [msgs[1]] by { WhereAppend([], [msgs[1]], 1); }
    var rows := Select(d, msgs, 1);
    assert rows == [Row(2, 1)] + [Row(2, 2)];
    GroupByMaxSnoc([], Row(2, 1));
    GroupByMaxSnoc([Row(2, 1)], Row(2, 2));
  }

  /** User 2 lists user 1 with the answer as last message. */
  lemma DialogueReceiver(d: Driver)
    ensures Conversations(d, Dialogue(), 2) == map[1 := 2]
  {
    var msgs := Dialogue();
    assert msgs == [msgs[0]] + [msgs[1]];
    WhereAppend([msgs[0]], [msgs[1]], 2);
    assert Where([msgs[0]], 2) == [msgs[0]] by { WhereAppend([], [msgs[0]], 2); }
    assert Where([msgs[1]], 2) == [msgs[1]] by { WhereAppend([], [msgs[1]], 2); }
    var rows := Select(d, msgs, 2);
    assert rows == [Row(1, 1)] + [Row(1, 2)];
    GroupByMaxSnoc([], Row(1, 1));
    GroupByMaxSnoc([Row(1, 1)], Row(1, 2));
  }

  /** A third user lists nobody. */
  lemma DialogueStranger(d: Driver)
    ensures Conversations(d, Dialogue(), 3) == map[]
  {
    var msgs := Dialogue();
    assert msgs[..1] == [msgs[0]];
    assert Where(msgs, 3) == [];
  }

  /** After user 1 deletes the answer, user 1's last message with user 2 is message 1; user 2 still sees message 2. */
  lemma DialogueAfterDeletion(d: Driver)
    ensures Conversations(d, Dialogue()[1 := HiddenFrom(Dialogue()[1], 1)], 1) == map[2 := 1]
    ensures Conversations(d, Dialogue()[1 := HiddenFrom(Dialogue()[1], 1)], 2) == map[1 := 2]
  {
    var msgs := Dialogue();
    HidingOneMessage(d, msgs, 1, 1);
    HidingIsOneSided(d, msgs, 1, 2, 1);
    DialogueReceiver(d);
    var rest := msgs[..1] + msgs[2..];
    assert rest == [msgs[0]];
    assert Where(rest, 1) == rest;
    assert Select(d, rest, 1) == [] + [Row(2, 1)];
    GroupByMaxSnoc([], Row(2, 1));
  }

  // ---------------------------------------------------------------------
  // The query object: `init` and `forUser`

  /** A built query: the dialect chosen in `init` and the bound parameters. */
  datatype Query = Query(driver: Driver, params: map<string, nat>)

  datatype QueryError = UnboundParameter(name: string)

  /** `init`: the query for a connection, which is only built for MySQL and PostgreSQL. */
  function Init(driverName: string): (q: Option<Query>)
    ensures q.Some? <==> DriverOf(driverName).Some?
    ensures q.Some? ==> q.value.driver == DriverOf(driverName).value && q.value.params == map[]
  {
    match DriverOf(driverName)
    case Some(d) => Some(Query(d, map[]))
    case None => None
  }

  /** `forUser`: binds `:userId` and changes nothing else. */
  function ForUser(q: Query, userId: nat): (r: Query)
    ensures r.driver == q.driver
    ensures "userId" in r.params && r.params["userId"] == userId
    ensures forall k :: k != "userId" ==> (k in r.params <==> k in q.params)
    ensures forall k :: k in q.params && k != "userId" ==> r.params[k] == q.params[k]
  {
    q.(params := q.params["userId" := userId])
  }

  /** Running the query: its result when `:userId` is bound, and an error when it is not. */
  function Execute(q: Query, msgs: seq<Message>): Result<map<nat, nat>, QueryError>
  {
    if "userId" in q.params then Ok(Conversations(q.driver, msgs, q.params["userId"]))
    else Err(UnboundParameter("userId"))
  }

  /** A fresh query fails to run until `forUser` binds the user; the last binding wins. */
  lemma ForUserFixesResult(driverName: string, msgs: seq<Message>, u: nat, u': nat)
    requires Init(driverName).Some?
    ensures Execute(Init(driverName).value, msgs) == Err(UnboundParameter("userId"))
    ensures Execute(ForUser(Init(driverName).value, u), msgs)
         == Ok(Conversations(DriverOf(driverName).value, msgs, u))
    ensures Execute(ForUser(ForUser(Init(driverName).value, u'), u), msgs)
         == Execute(ForUser(Init(driverName).value, u), msgs)
  {
  }

  /** The same user and table give the same result on a MySQL and on a PostgreSQL connection. */
  lemma DriversAgree(msgs: seq<Message>, u: nat)
    ensures Execute(ForUser(Init("mysql").value, u), msgs) == Execute(ForUser(Init("pgsql").value, u), msgs)
  {
    SameMessagesSameView(MySql, PgSql, msgs, msgs, u);
  }
}
