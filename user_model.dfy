/** The users collection (src/models/user/model.ts) as an in-memory table:
    documents in insertion order, so that `findOne` returns the first match as
    MongoDB's natural order does, a counter that names new documents, and the
    schema's two unique indexes, on email and on phone, which refuse any write
    that would repeat a value. */
module UserModel {
  import opened Common

  datatype User = User(
    id: string,
    firstName: string,
    lastName: string,
    email: string,
    phone: string,
    dob: string,
    password: string,
    interests: seq<string>)

  /** The fields a caller supplies to `create`; the store adds the id. */
  datatype UserFields = UserFields(
    firstName: string,
    lastName: string,
    email: string,
    phone: string,
    dob: string,
    password: string,
    interests: seq<string>)

  function Stored(id: string, f: UserFields): User
  {
    User(id, f.firstName, f.lastName, f.email, f.phone, f.dob, f.password, f.interests)
  }

  /** The query filters the core issues. */
  datatype Filter =
    | ById(id: string)                         // findById
    | ByEmail(email: string)                   // { email }
    | EmailOrPhone(email: string, phone: string)  // { $or: [{ email }, { phone }] }

  predicate Matches(u: User, f: Filter)
  {
    match f
    case ById(id) => u.id == id
    case ByEmail(e) => u.email == e
    case EmailOrPhone(e, p) => u.email == e || u.phone == p
  }

  /** The position of the first document the filter matches. */
  function FirstMatch(rows: seq<User>, f: Filter): (r: Option<nat>)
    ensures r.Some? ==> r.value < |rows| && Matches(rows[r.value], f)
    ensures r.Some? ==> forall j :: 0 <= j < r.value ==> !Matches(rows[j], f)
    ensures r.None? ==> forall j :: 0 <= j < |rows| ==> !Matches(rows[j], f)
    decreases |rows|
  {
    if |rows| == 0 then None
    else if Matches(rows[0], f) then Some(0)
    else match FirstMatch(rows[1..], f)
      case None => None
      case Some(i) => Some(i + 1)
  }

  /** `findOne(filter)` */
  function FindOne(rows: seq<User>, f: Filter): (r: Option<User>)
    ensures r.Some? ==> r.value in rows && Matches(r.value, f)
    ensures r.None? <==> forall u :: u in rows ==> !Matches(u, f)
  {
    match FirstMatch(rows, f)
    case None => None
    case Some(i) => Some(rows[i])
  }

  datatype Table = Table(rows: seq<User>, nextId: nat)

  /** What the store guarantees of its contents: ids, emails and phones are
      each unique, and no document holds an id the counter has yet to issue. */
  ghost predicate Wf(t: Table)
  {
    && (forall i, j :: 0 <= i < j < |t.rows| ==>
          && t.rows[i].id != t.rows[j].id
          && t.rows[i].email != t.rows[j].email
          && t.rows[i].phone != t.rows[j].phone)
    && (forall i, k :: 0 <= i < |t.rows| && t.nextId <= k ==> t.rows[i].id != IdOf(k))
  }

  /** The table after `create(fields)`, with the document created. */
  function AfterCreate(t: Table, f: UserFields): Completion<(Table, User)>
  {
    if FindOne(t.rows, EmailOrPhone(f.email, f.phone)).Some? then Threw(DuplicateKey)
    else
      var u := Stored(IdOf(t.nextId), f);
      Returned((Table(t.rows + [u], t.nextId + 1), u))
  }

  /** Whether writing `u` in place of document `i` repeats another document's email or phone. */
  predicate Collides(rows: seq<User>, i: nat, u: User)
  {
    exists j :: 0 <= j < |rows| && j != i && (rows[j].email == u.email || rows[j].phone == u.phone)
  }

  /** Overwrite document `i` with the fields of `doc`; the `_id` is kept. */
  function ReplaceAt(t: Table, i: nat, doc: User): Completion<Table>
    requires i < |t.rows|
  {
    var u := doc.(id := t.rows[i].id);
    if Collides(t.rows, i, u) then Threw(DuplicateKey) else Returned(t.(rows := t.rows[i := u]))
  }

  /** The table after `updateOne(filter, doc)`: no match is not an error. */
  function AfterUpdateOne(t: Table, f: Filter, doc: User): Completion<Table>
  {
    match FirstMatch(t.rows, f)
    case None => Returned(t)
    case Some(i) => ReplaceAt(t, i, doc)
  }

  /** The table after `doc.save()` of a document read earlier. */
  function AfterSave(t: Table, doc: User): Completion<Table>
  {
    match FirstMatch(t.rows, ById(doc.id))
    case None => Threw(DocumentNotFound)
    case Some(i) => ReplaceAt(t, i, doc)
  }

  /** `create` adds exactly one document, carrying the given fields and an
      id no stored document has; it fails, changing nothing, exactly when the
      email or the phone is already held. */
  lemma CreateAddsExactlyOne(t: Table, f: UserFields)
    requires Wf(t)
    ensures AfterCreate(t, f).Threw? <==> exists u :: u in t.rows && (u.email == f.email || u.phone == f.phone)
    ensures AfterCreate(t, f).Threw? ==> AfterCreate(t, f).fault == DuplicateKey
    ensures AfterCreate(t, f).Returned? ==>
              var (t', u) := AfterCreate(t, f).value;
              && t'.rows == t.rows + [u]
              && u == Stored(u.id, f)
              && (forall w :: w in t.rows ==> w.id != u.id)
              && Wf(t')
  {
    if AfterCreate(t, f).Returned? {
      var (t', u) := AfterCreate(t, f).value;
      assert u.id == IdOf(t.nextId);
      forall i, k | 0 <= i < |t'.rows| && t'.nextId <= k
        ensures t'.rows[i].id != IdOf(k)
      {
        if i == |t.rows| {
          if IdOf(t.nextId) == IdOf(k) {
            IdOfInjective(t.nextId, k);
          }
        }
      }
      forall w | w in t.rows
        ensures w.id != u.id
      {
        var i :| 0 <= i < |t.rows| && t.rows[i] == w;
      }
    } else {
      var w := FindOne(t.rows, EmailOrPhone(f.email, f.phone)).value;
      assert w in t.rows && Matches(w, EmailOrPhone(f.email, f.phone));
    }
  }

  /** A successful overwrite leaves the document count, the counter and
      every other document as they were, and keeps the store's guarantees. */
  lemma ReplaceAtTouchesOnlyTarget(t: Table, i: nat, doc: User)
    requires Wf(t) && i < |t.rows|
    ensures ReplaceAt(t, i, doc).Threw? ==> ReplaceAt(t, i, doc).fault == DuplicateKey
    ensures ReplaceAt(t, i, doc).Returned? ==>
              var t' := ReplaceAt(t, i, doc).value;
              && |t'.rows| == |t.rows| && t'.nextId == t.nextId
              && t'.rows[i] == doc.(id := t.rows[i].id)
              && (forall j :: 0 <= j < |t.rows| && j != i ==> t'.rows[j] == t.rows[j])
              && Wf(t')
  {
  }

  /** `updateOne` changes at most the first document the filter matches. */
  lemma UpdateOneTouchesOnlyMatch(t: Table, f: Filter, doc: User)
    requires Wf(t)
    ensures AfterUpdateOne(t, f, doc).Threw? ==> AfterUpdateOne(t, f, doc).fault == DuplicateKey
    ensures AfterUpdateOne(t, f, doc).Returned? ==>
              var t' := AfterUpdateOne(t, f, doc).value;
              && |t'.rows| == |t.rows| && t'.nextId == t.nextId && Wf(t')
              && (forall j :: 0 <= j < |t.rows| ==> t'.rows[j].id == t.rows[j].id)
              && (forall j :: 0 <= j < |t.rows| && !Matches(t.rows[j], f) ==> t'.rows[j] == t.rows[j])
              && (forall j, k :: 0 <= j < k < |t.rows| && Matches(t.rows[j], f) ==> t'.rows[k] == t.rows[k])
  {
    match FirstMatch(t.rows, f)
    case None =>
    case Some(i) => ReplaceAtTouchesOnlyTarget(t, i, doc);
  }

  /** Saving a document read by email writes the same table as updating by
      that email: the two services persist profile changes differently and
      agree. */
  lemma {:induction false} SaveAgreesWithUpdateByEmail(t: Table, i: nat, doc: User)
    requires Wf(t) && i < |t.rows|
    requires doc.id == t.rows[i].id && doc.email == t.rows[i].email
    ensures AfterSave(t, doc) == AfterUpdateOne(t, ByEmail(doc.email), doc)
  {
    var byId := FirstMatch(t.rows, ById(doc.id));
    var byEmail := FirstMatch(t.rows, ByEmail(doc.email));
    assert Matches(t.rows[i], ById(doc.id)) && Matches(t.rows[i], ByEmail(doc.email));
    assert byId == Some(i);
    assert byEmail == Some(i);
  }

  /** The collection object, updated in place by the store's write operations. */
  class UserCollection {
    var rows: seq<User>
    var nextId: nat

    function State(): Table
      reads this
    {
      Table(rows, nextId)
    }

    ghost predicate Valid()
      reads this
    {
      Wf(State())
    }

    constructor ()
      ensures Valid() && rows == [] && nextId == 0
    {
      rows, nextId := [], 0;
    }

    /** `model.create(fields)` */
    method Create(f: UserFields) returns (r: Completion<User>)
      requires Valid()
      modifies this
      ensures Valid()
      ensures match AfterCreate(old(State()), f)
              case Threw(e) => r == Threw(e) && State() == old(State())
              case Returned(p) => r == Returned(p.1) && State() == p.0
    {
      CreateAddsExactlyOne(State(), f);
      if FindOne(rows, EmailOrPhone(f.email, f.phone)).Some? {
        return Threw(DuplicateKey);
      }
      var u := Stored(IdOf(nextId), f);
      rows, nextId := rows + [u], nextId + 1;
      r := Returned(u);
    }

    /** `model.updateOne(filter, doc)` */
    method UpdateOne(f: Filter, doc: User) returns (r: Completion<()>)
      requires Valid()
      modifies this
      ensures Valid()
      ensures match AfterUpdateOne(old(State()), f, doc)
              case Threw(e) => r == Threw(e) && State() == old(State())
              case Returned(t) => r == Returned(()) && State() == t
    {
      UpdateOneTouchesOnlyMatch(State(), f, doc);
      var i := FirstMatch(rows, f);
      if i.None? {
        return Returned(());
      }
      var u := doc.(id := rows[i.value].id);
      if Collides(rows, i.value, u) {
        return Threw(DuplicateKey);
      }
      rows := rows[i.value := u];
      r := Returned(());
    }

    /** `doc.save()` */
    method Save(doc: User) returns (r: Completion<()>)
      requires Valid()
      modifies this
      ensures Valid()
      ensures match AfterSave(old(State()), doc)
              case Threw(e) => r == Threw(e) && State() == old(State())
              case Returned(t) => r == Returned(()) && State() == t
    {
      var i := FirstMatch(rows, ById(doc.id));
      if i.None? {
        return Threw(DocumentNotFound);
      }
      ReplaceAtTouchesOnlyTarget(State(), i.value, doc);
      var u := doc.(id := rows[i.value].id);
      if Collides(rows, i.value, u) {
        return Threw(DuplicateKey);
      }
      rows := rows[i.value := u];
      r := Returned(());
    }
  }
}
