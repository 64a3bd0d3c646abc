/** The articles collection (src/models/article/model.ts) as an in-memory
    table in creation order, with the update operators the services use:
    `$addToSet` and `$pull` on the three user-id arrays, `$set` through
    findByIdAndUpdate, and deleteOne. */
module ArticleModel {
  import opened Common

  datatype Article = Article(
    id: string,
    title: string,
    content: string,
    image: string,       // "" when no image, the schema's default
    imageId: string,     // "" when no image
    category: string,
    tags: seq<string>,
    authorId: string,
    likes: seq<string>,
    dislikes: seq<string>,
    blockedBy: seq<string>)

  /** The fields of a new article; the three user arrays start empty. */
  datatype Draft = Draft(
    title: string,
    content: string,
    image: string,
    imageId: string,
    category: string,
    tags: seq<string>,
    authorId: string)

  /** `$addToSet`: appends `x` unless it is already present. */
  function AddToSet(s: seq<string>, x: string): (r: seq<string>)
    ensures forall y :: y in r <==> y in s || y == x
    ensures x in s ==> r == s
    ensures |s| <= |r| <= |s| + 1 && r[..|s|] == s
  {
    if x in s then s else s + [x]
  }

  /** `$pull`: removes every occurrence of `x`, keeping the others, each as
      often as it occurred, in order (see PullAppend). */
  function Pull(s: seq<string>, x: string): (r: seq<string>)
    ensures multiset(r) == multiset(s)[x := 0]
    ensures forall y :: y in r <==> y in s && y != x
    ensures x !in s ==> r == s
    ensures |r| <= |s|
  {
    if |s| == 0 then []
    else
      assert s == [s[0]] + s[1..];
      if s[0] == x then Pull(s[1..], x)
      else [s[0]] + Pull(s[1..], x)
  }

  /** Pulling distributes over concatenation, so the survivors of each part
      keep their relative order. */
  lemma {:induction false} PullAppend(s: seq<string>, t: seq<string>, x: string)
    ensures Pull(s + t, x) == Pull(s, x) + Pull(t, x)
  {
    if |s| == 0 {
      assert s + t == t;
    } else {
      assert (s + t)[1..] == s[1..] + t;
      PullAppend(s[1..], t, x);
    }
  }

  lemma {:induction false} PullIdempotent(s: seq<string>, x: string)
    ensures Pull(Pull(s, x), x) == Pull(s, x)
  {
    assert x !in Pull(s, x);
  }

  /** The three arrays of user ids an article carries. */
  datatype UserArray = Likes | Dislikes | BlockedBy

  function Members(a: Article, f: UserArray): seq<string>
  {
    match f
    case Likes => a.likes
    case Dislikes => a.dislikes
    case BlockedBy => a.blockedBy
  }

  /** An array update document: `{ $addToSet: { f: u } }` or `{ $pull: { f: u } }`. */
  datatype ArrayUpdate = AddToSetOp(field: UserArray, user: string) | PullOp(field: UserArray, user: string)

  /** The array an update document leaves behind. */
  function NewMembers(s: seq<string>, op: ArrayUpdate): seq<string>
  {
    if op.AddToSetOp? then AddToSet(s, op.user) else Pull(s, op.user)
  }

  function Apply(a: Article, op: ArrayUpdate): (b: Article)
    ensures Members(b, op.field) == (if op.AddToSetOp? then AddToSet(Members(a, op.field), op.user)
                                     else Pull(Members(a, op.field), op.user))
    ensures forall g :: g != op.field ==> Members(b, g) == Members(a, g)
    ensures b.id == a.id && b.title == a.title && b.content == a.content && b.image == a.image
    ensures b.imageId == a.imageId && b.category == a.category && b.tags == a.tags && b.authorId == a.authorId
  {
    var s := NewMembers(Members(a, op.field), op);
    match op.field
    case Likes => a.(likes := s)
    case Dislikes => a.(dislikes := s)
    case BlockedBy => a.(blockedBy := s)
  }

  /** The query filters the services issue. */
  datatype ArticleFilter =
    | ByArticleId(id: string)                  // findById, { _id }
    | OwnedBy(id: string, authorId: string)    // { _id, authorId }
    | ByAuthor(authorId: string)               // { authorId }
    | AllArticles                              // {}

  predicate Selects(f: ArticleFilter, a: Article)
  {
    match f
    case ByArticleId(id) => a.id == id
    case OwnedBy(id, author) => a.id == id && a.authorId == author
    case ByAuthor(author) => a.authorId == author
    case AllArticles => true
  }

  /** The position of the first article the filter selects. */
  function FirstSelected(rows: seq<Article>, f: ArticleFilter): (r: Option<nat>)
    ensures r.Some? ==> r.value < |rows| && Selects(f, rows[r.value])
    ensures r.Some? ==> forall j :: 0 <= j < r.value ==> !Selects(f, rows[j])
    ensures r.None? ==> forall j :: 0 <= j < |rows| ==> !Selects(f, rows[j])
    decreases |rows|
  {
    if |rows| == 0 then None
    else if Selects(f, rows[0]) then Some(0)
    else match FirstSelected(rows[1..], f)
      case None => None
      case Some(i) => Some(i + 1)
  }

  /** `findOne(filter)` / `findById(id)` */
  function FindArticle(rows: seq<Article>, f: ArticleFilter): (r: Option<Article>)
    ensures r.Some? ==> r.value in rows && Selects(f, r.value)
    ensures r.None? <==> forall a :: a in rows ==> !Selects(f, a)
  {
    match FirstSelected(rows, f)
    case None => None
    case Some(i) => Some(rows[i])
  }

  datatype ArticleTable = ArticleTable(rows: seq<Article>, nextId: nat)

  /** Ids are unique, and none is one the counter has yet to issue. */
  ghost predicate Wf(t: ArticleTable)
  {
    && (forall i, j :: 0 <= i < j < |t.rows| ==> t.rows[i].id != t.rows[j].id)
    && (forall i, k :: 0 <= i < |t.rows| && t.nextId <= k ==> t.rows[i].id != IdOf(k))
  }

  function NewArticle(id: string, d: Draft): Article
  {
    Article(id, d.title, d.content, d.image, d.imageId, d.category, d.tags, d.authorId, [], [], [])
  }

  /** The table after `create(draft)`, with the article created. */
  function AfterCreate(t: ArticleTable, d: Draft): (ArticleTable, Article)
  {
    var a := NewArticle(IdOf(t.nextId), d);
    (ArticleTable(t.rows + [a], t.nextId + 1), a)
  }

  /** The table after `updateOne({ _id: id }, op)`; no match changes nothing. */
  function AfterUpdateOne(t: ArticleTable, id: string, op: ArrayUpdate): ArticleTable
  {
    match FirstSelected(t.rows, ByArticleId(id))
    case None => t
    case Some(i) => t.(rows := t.rows[i := Apply(t.rows[i], op)])
  }

  /** The `$set` document of an edit; absent fields are left as they are. */
  datatype Patch = Patch(
    title: string,
    content: string,
    category: string,
    tags: seq<string>,
    image: Option<string>,
    imageId: Option<string>)

  function Patched(a: Article, p: Patch): Article
  {
    a.(title := p.title, content := p.content, category := p.category, tags := p.tags,
       image := if p.image.Some? then p.image.value else a.image,
       imageId := if p.imageId.Some? then p.imageId.value else a.imageId)
  }

  /** The table after `findByIdAndUpdate(id, { $set: patch }, { new: true })`,
      with the updated article, or nothing when the id is unknown. */
  function AfterSetById(t: ArticleTable, id: string, p: Patch): (ArticleTable, Option<Article>)
  {
    match FirstSelected(t.rows, ByArticleId(id))
    case None => (t, None)
    case Some(i) => (t.(rows := t.rows[i := Patched(t.rows[i], p)]), Some(Patched(t.rows[i], p)))
  }

  /** A `$set` never touches the id, so ids stay unique and fresh, and the
      article edited is the only one with that id. */
  lemma SetByIdKeepsWf(t: ArticleTable, id: string, p: Patch)
    requires Wf(t)
    ensures Wf(AfterSetById(t, id, p).0)
    ensures forall i :: 0 <= i < |t.rows| && t.rows[i].id == id ==> FirstSelected(t.rows, ByArticleId(id)) == Some(i)
  {
    forall i | 0 <= i < |t.rows| && t.rows[i].id == id
      ensures FirstSelected(t.rows, ByArticleId(id)) == Some(i)
    {
      var j := FirstSelected(t.rows, ByArticleId(id));
      assert Selects(ByArticleId(id), t.rows[i]);
      assert j.Some? && j.value == i;
    }
  }

  /** In a well-formed table an id names at most one article. */
  lemma SameIdSameArticle(t: ArticleTable, a: Article, b: Article)
    requires Wf(t)
    requires a in t.rows && b in t.rows && a.id == b.id
    ensures a == b
  {
    var i :| 0 <= i < |t.rows| && t.rows[i] == a;
    var j :| 0 <= j < |t.rows| && t.rows[j] == b;
    assert i == j;
  }

  /** The table after `deleteOne(filter)`: the first selected article is removed. */
  function AfterDeleteOne(t: ArticleTable, f: ArticleFilter): ArticleTable
  {
    match FirstSelected(t.rows, f)
    case None => t
    case Some(i) => t.(rows := t.rows[..i] + t.rows[i + 1..])
  }

  /** The positions of the articles the filter selects, last stored first:
      strictly decreasing, and holding every selected position. */
  function SelectedPositions(rows: seq<Article>, f: ArticleFilter): (ps: seq<nat>)
    ensures forall k :: 0 <= k < |ps| ==> ps[k] < |rows| && Selects(f, rows[ps[k]])
    ensures forall k, l :: 0 <= k < l < |ps| ==> ps[k] > ps[l]
    ensures forall j :: 0 <= j < |rows| && Selects(f, rows[j]) ==> j in ps
  {
    if |rows| == 0 then []
    else
      var n := |rows| - 1;
      var rest := SelectedPositions(rows[..n], f);
      assert forall j :: 0 <= j < n ==> rows[..n][j] == rows[j];
      (if Selects(f, rows[n]) then [n] else []) + rest
  }

  /** `find(filter).sort({ createdAt: -1 })`: the selected articles, newest
      first. Rows are stored in creation order, so the k-th article listed is
      the one at the k-th selected position counted from the end, and each
      selected article is listed exactly once. */
  function NewestFirst(rows: seq<Article>, f: ArticleFilter): (r: seq<Article>)
    ensures |r| == |SelectedPositions(rows, f)|
    ensures forall k :: 0 <= k < |r| ==> r[k] == rows[SelectedPositions(rows, f)[k]]
    ensures forall a :: a in r <==> a in rows && Selects(f, a)
    ensures |r| <= |rows|
  {
    if |rows| == 0 then []
    else
      var last := rows[|rows| - 1];
      (if Selects(f, last) then [last] else []) + NewestFirst(rows[..|rows| - 1], f)
  }

  /** `.skip(skip).limit(limit)` on a list. */
  function Window(s: seq<Article>, skip: nat, limit: nat): (r: seq<Article>)
    ensures |r| <= limit
    ensures skip >= |s| ==> r == []
    ensures skip < |s| ==> |r| == if skip + limit <= |s| then limit else |s| - skip
    ensures forall k :: 0 <= k < |r| ==> r[k] == s[skip + k]
  {
    if skip >= |s| then []
    else if skip + limit <= |s| then s[skip..skip + limit]
    else s[skip..]
  }

  /** Creating keeps ids unique and fresh. */
  lemma CreateKeepsWf(t: ArticleTable, d: Draft)
    requires Wf(t)
    ensures Wf(AfterCreate(t, d).0)
    ensures AfterCreate(t, d).0.rows == t.rows + [AfterCreate(t, d).1]
    ensures forall a :: a in t.rows ==> a.id != AfterCreate(t, d).1.id
  {
    var (t', a) := AfterCreate(t, d);
    forall i, k | 0 <= i < |t'.rows| && t'.nextId <= k
      ensures t'.rows[i].id != IdOf(k)
    {
      if i == |t.rows| && IdOf(t.nextId) == IdOf(k) {
        IdOfInjective(t.nextId, k);
      }
    }
    forall w | w in t.rows
      ensures w.id != a.id
    {
      var i :| 0 <= i < |t.rows| && t.rows[i] == w;
    }
  }

  /** Removing the selected article keeps the others in order, and with
      unique ids leaves no article with that id. */
  /** `r` is `rows` with position `i` removed: position k of `r` is position
      k of `rows` before `i`, and position k + 1 from `i` on. */
  ghost predicate RemovedAt(rows: seq<Article>, i: nat, r: seq<Article>)
  {
    && i < |rows| && |r| == |rows| - 1
    && (forall k :: 0 <= k < i ==> r[k] == rows[k])
    && (forall k :: i < k < |rows| ==> r[k - 1] == rows[k])
  }

  lemma RemovedAtSlices(rows: seq<Article>, i: nat)
    requires i < |rows|
    ensures RemovedAt(rows, i, rows[..i] + rows[i + 1..])
  {
  }

  lemma {:induction false} RemovalKeepsWf(rows: seq<Article>, i: nat, r: seq<Article>, nextId: nat)
    requires RemovedAt(rows, i, r) && Wf(ArticleTable(rows, nextId))
    ensures Wf(ArticleTable(r, nextId))
  {
    forall k, l | 0 <= k < l < |r|
      ensures r[k].id != r[l].id
    {
      var k0, l0 := if k < i then k else k + 1, if l < i then l else l + 1;
      assert r[k] == rows[k0] && r[l] == rows[l0] && k0 < l0;
    }
    forall k, n | 0 <= k < |r| && nextId <= n
      ensures r[k].id != IdOf(n)
    {
      var k0 := if k < i then k else k + 1;
      assert r[k] == rows[k0];
    }
  }

  lemma {:induction false} RemovalMembers(rows: seq<Article>, i: nat, r: seq<Article>, nextId: nat)
    requires RemovedAt(rows, i, r) && Wf(ArticleTable(rows, nextId))
    ensures forall a :: a in r <==> a in rows && a.id != rows[i].id
  {
    forall a | a in rows && a.id != rows[i].id
      ensures a in r
    {
      var j :| 0 <= j < |rows| && rows[j] == a;
      var j0 := if j < i then j else j - 1;
      assert r[j0] == a;
    }
    forall a | a in r
      ensures a in rows && a.id != rows[i].id
    {
      var j :| 0 <= j < |r| && r[j] == a;
      var j0 := if j < i then j else j + 1;
      assert a == rows[j0] && j0 != i;
    }
  }

  lemma {:induction false} DeleteOneRemovesOnlyTarget(t: ArticleTable, f: ArticleFilter)
    requires Wf(t) && FirstSelected(t.rows, f).Some?
    ensures var i := FirstSelected(t.rows, f).value;
            var t' := AfterDeleteOne(t, f);
            && Wf(t')
            && |t'.rows| == |t.rows| - 1
            && (forall a :: a in t'.rows <==> a in t.rows && a.id != t.rows[i].id)
  {
    var i := FirstSelected(t.rows, f).value;
    var t' := AfterDeleteOne(t, f);
    RemovedAtSlices(t.rows, i);
    assert t' == ArticleTable(t.rows[..i] + t.rows[i + 1..], t.nextId);
    RemovalKeepsWf(t.rows, i, t'.rows, t.nextId);
    RemovalMembers(t.rows, i, t'.rows, t.nextId);
  }

  /** The articles collection, updated in place. */
  class ArticleCollection {
    var rows: seq<Article>
    var nextId: nat

    function State(): ArticleTable
      reads this
    {
      ArticleTable(rows, nextId)
    }

    ghost predicate Valid()
      reads this
    {
      Wf(State())
    }

    constructor ()
      ensures Valid() && rows == [] && nextId == 0
    {
      rows, nextId := [], 0;
    }

    /** `create(draft)` */
    method Create(d: Draft) returns (a: Article)
      requires Valid()
      modifies this
      ensures Valid()
      ensures (State(), a) == AfterCreate(old(State()), d)
    {
      CreateKeepsWf(State(), d);
      a := NewArticle(IdOf(nextId), d);
      rows, nextId := rows + [a], nextId + 1;
    }

    /** `updateOne({ _id: id }, op)` */
    method UpdateOne(id: string, op: ArrayUpdate)
      requires Valid()
      modifies this
      ensures Valid()
      ensures State() == AfterUpdateOne(old(State()), id, op)
    {
      var i := FirstSelected(rows, ByArticleId(id));
      if i.Some? {
        rows := rows[i.value := Apply(rows[i.value], op)];
      }
    }

    /** `findByIdAndUpdate(id, { $set: patch }, { new: true })` */
    method FindByIdAndUpdate(id: string, p: Patch) returns (r: Option<Article>)
      requires Valid()
      modifies this
      ensures Valid()
      ensures (State(), r) == AfterSetById(old(State()), id, p)
    {
      var i := FirstSelected(rows, ByArticleId(id));
      if i.None? {
        return None;
      }
      r := Some(Patched(rows[i.value], p));
      rows := rows[i.value := r.value];
    }

    /** `deleteOne(filter)` */
    method DeleteOne(f: ArticleFilter)
      requires Valid()
      modifies this
      ensures Valid()
      ensures State() == AfterDeleteOne(old(State()), f)
    {
      var i := FirstSelected(rows, f);
      if i.Some? {
        DeleteOneRemovesOnlyTarget(State(), f);
        rows := rows[..i.value] + rows[i.value + 1..];
      }
    }
  }
}
