/** The article decisions both copies of the article service make
    (src/services/implementation/article.service.ts and
    src/services/articleService.ts), each stated once as a step from the
    articles table to an outcome, a new table and the image destroy requests
    sent to the host. Both copies catch every fault; they differ in one reply
    text, in which image fields an edit writes, and in when a delete destroys
    the image, and those differences are parameters or separate steps here. */
module ArticleSpec {
  import opened Common
  import opened Media
  import opened ArticleModel

  datatype ArticleEvent =
    | Created | EditNotFound | Updated | ArticleMissing
    | Deleted | Liked | Disliked | Blocked | Unblocked

  function StatusOf(e: ArticleEvent): Status
  {
    match e
    case Created => CREATED
    case EditNotFound => NOT_FOUND
    case ArticleMissing => NOT_FOUND
    case _ => OK
  }

  datatype ArticleReply = ArticleReply(event: ArticleEvent, article: Option<Article>)

  /** What an article operation returns to the controller. */
  datatype ArticleReturn = ArticleReturn(message: string, status: Status, article: Option<Article>)

  /** One operation's effect: how it settles, the articles table afterwards,
      and the image ids it asked the host to destroy, in order. */
  datatype ArticleStep = ArticleStep(outcome: Completion<ArticleReply>, table: ArticleTable, destroyed: seq<string>)

  function Reached(t: ArticleTable, e: ArticleEvent): ArticleStep
  {
    ArticleStep(Returned(ArticleReply(e, None)), t, [])
  }

  /** The title, content, category and tags of the request body. */
  datatype ArticleFields = ArticleFields(title: string, content: string, category: string, tags: seq<string>)

  // ---------------------------------------------------------------------
  // createPost

  /** createPost: the image and its id are stored only when a file came and
      its upload succeeded; otherwise both keep the schema's default "". */
  function CreatePost(t: ArticleTable, authorId: string, e: ArticleFields, upload: Upload): ArticleStep
  {
    match upload
    case UploadFailed => ArticleStep(Threw(MediaFailure), t, [])
    case _ =>
      var (image, imageId) := if upload.Uploaded? then (upload.asset.secureUrl, upload.asset.publicId) else ("", "");
      var (t', a) := AfterCreate(t, Draft(e.title, e.content, image, imageId, e.category, e.tags, authorId));
      ArticleStep(Returned(ArticleReply(Created, Some(a))), t', [])
  }

  lemma CreatePostStoresDraft(t: ArticleTable, authorId: string, e: ArticleFields, upload: Upload)
    requires Wf(t)
    ensures var s := CreatePost(t, authorId, e, upload);
            && (upload.UploadFailed? <==> s.outcome.Threw?)
            && (upload.UploadFailed? ==> s.table == t)
            && (s.outcome.Returned? ==>
                  && s.outcome.value.event == Created && s.outcome.value.article.Some?
                  && var a := s.outcome.value.article.value;
                  && s.table.rows == t.rows + [a] && Wf(s.table)
                  && (forall b :: b in t.rows ==> b.id != a.id)
                  && a.authorId == authorId && a.title == e.title && a.tags == e.tags
                  && a.likes == [] && a.dislikes == [] && a.blockedBy == []
                  && (upload.Uploaded? ==> a.image == upload.asset.secureUrl && a.imageId == upload.asset.publicId)
                  && (upload.NoFile? ==> a.image == "" && a.imageId == ""))
            && s.destroyed == []
  {
    if !upload.UploadFailed? {
      var (image, imageId) := if upload.Uploaded? then (upload.asset.secureUrl, upload.asset.publicId) else ("", "");
      CreateKeepsWf(t, Draft(e.title, e.content, image, imageId, e.category, e.tags, authorId));
    }
  }

  // ---------------------------------------------------------------------
  // like, unLike, block, unBlock

  /** The two array updates `like` issues, in order. */
  function Like(t: ArticleTable, userId: string, articleId: string): ArticleStep
  {
    if FindArticle(t.rows, ByArticleId(articleId)).None? then Reached(t, ArticleMissing)
    else
      var t1 := AfterUpdateOne(t, articleId, PullOp(Dislikes, userId));
      Reached(AfterUpdateOne(t1, articleId, AddToSetOp(Likes, userId)), Liked)
  }

  function UnLike(t: ArticleTable, userId: string, articleId: string): ArticleStep
  {
    if FindArticle(t.rows, ByArticleId(articleId)).None? then Reached(t, ArticleMissing)
    else
      var t1 := AfterUpdateOne(t, articleId, PullOp(Likes, userId));
      Reached(AfterUpdateOne(t1, articleId, AddToSetOp(Dislikes, userId)), Disliked)
  }

  function Block(t: ArticleTable, userId: string, articleId: string): ArticleStep
  {
    if FindArticle(t.rows, ByArticleId(articleId)).None? then Reached(t, ArticleMissing)
    else Reached(AfterUpdateOne(t, articleId, AddToSetOp(BlockedBy, userId)), Blocked)
  }

  function UnBlock(t: ArticleTable, userId: string, articleId: string): ArticleStep
  {
    if FindArticle(t.rows, ByArticleId(articleId)).None? then Reached(t, ArticleMissing)
    else Reached(AfterUpdateOne(t, articleId, PullOp(BlockedBy, userId)), Unblocked)
  }

  /** An update by id rewrites the article found by id, which keeps its id,
      so a second update by the same id finds it at the same place. */
  lemma {:induction false} UpdateOneAt(t: ArticleTable, id: string, op: ArrayUpdate, i: nat)
    requires FirstSelected(t.rows, ByArticleId(id)) == Some(i)
    ensures AfterUpdateOne(t, id, op) == t.(rows := t.rows[i := Apply(t.rows[i], op)])
    ensures FirstSelected(AfterUpdateOne(t, id, op).rows, ByArticleId(id)) == Some(i)
    ensures Wf(t) ==> Wf(AfterUpdateOne(t, id, op))
  {
    var rows' := t.rows[i := Apply(t.rows[i], op)];
    var j := FirstSelected(rows', ByArticleId(id));
    assert Selects(ByArticleId(id), rows'[i]);
    assert j.Some? && j.value <= i;
  }

  /** On an unknown article the four actions reply NOT_FOUND and write nothing. */
  lemma SocialActionsOnMissing(t: ArticleTable, userId: string, articleId: string)
    requires forall a :: a in t.rows ==> a.id != articleId
    ensures Like(t, userId, articleId) == Reached(t, ArticleMissing)
    ensures UnLike(t, userId, articleId) == Reached(t, ArticleMissing)
    ensures Block(t, userId, articleId) == Reached(t, ArticleMissing)
    ensures UnBlock(t, userId, articleId) == Reached(t, ArticleMissing)
    ensures StatusOf(ArticleMissing) == NOT_FOUND
  {
  }

  /** Whether `t'` differs from `t` at most in article `i`. */
  ghost predicate OnlyAt(t: ArticleTable, t': ArticleTable, i: nat)
  {
    && |t'.rows| == |t.rows| && t'.nextId == t.nextId && i < |t.rows|
    && (forall j :: 0 <= j < |t.rows| && j != i ==> t'.rows[j] == t.rows[j])
  }

  /** `like(u, a)`: u is among the likes and not among the dislikes, no other
      user's membership changes, and nothing else of any article changes. */
  lemma {:induction false} LikeEffect(t: ArticleTable, u: string, id: string)
    requires FirstSelected(t.rows, ByArticleId(id)).Some?
    ensures var i := FirstSelected(t.rows, ByArticleId(id)).value;
            var s := Like(t, u, id);
            var a := t.rows[i];
            && s.outcome == Returned(ArticleReply(Liked, None)) && s.destroyed == []
            && OnlyAt(t, s.table, i)
            && var b := s.table.rows[i];
            && u in b.likes && u !in b.dislikes
            && (forall v :: v != u ==> (v in b.likes <==> v in a.likes))
            && (forall v :: v != u ==> (v in b.dislikes <==> v in a.dislikes))
            && b == a.(likes := b.likes, dislikes := b.dislikes)
  {
    var i := FirstSelected(t.rows, ByArticleId(id)).value;
    UpdateOneAt(t, id, PullOp(Dislikes, u), i);
    UpdateOneAt(AfterUpdateOne(t, id, PullOp(Dislikes, u)), id, AddToSetOp(Likes, u), i);
  }

  /** `unLike(u, a)` mirrors `like`. */
  lemma {:induction false} UnLikeEffect(t: ArticleTable, u: string, id: string)
    requires FirstSelected(t.rows, ByArticleId(id)).Some?
    ensures var i := FirstSelected(t.rows, ByArticleId(id)).value;
            var s := UnLike(t, u, id);
            var a := t.rows[i];
            && s.outcome == Returned(ArticleReply(Disliked, None)) && s.destroyed == []
            && OnlyAt(t, s.table, i)
            && var b := s.table.rows[i];
            && u in b.dislikes && u !in b.likes
            && (forall v :: v != u ==> (v in b.likes <==> v in a.likes))
            && (forall v :: v != u ==> (v in b.dislikes <==> v in a.dislikes))
            && b == a.(likes := b.likes, dislikes := b.dislikes)
  {
    var i := FirstSelected(t.rows, ByArticleId(id)).value;
    UpdateOneAt(t, id, PullOp(Likes, u), i);
    UpdateOneAt(AfterUpdateOne(t, id, PullOp(Likes, u)), id, AddToSetOp(Dislikes, u), i);
  }

  /** `block(u, a)` and `unBlock(u, a)` change only u's membership in
      blockedBy, never the likes or dislikes. */
  lemma {:induction false} BlockEffects(t: ArticleTable, u: string, id: string)
    requires FirstSelected(t.rows, ByArticleId(id)).Some?
    ensures var i := FirstSelected(t.rows, ByArticleId(id)).value;
            var a := t.rows[i];
            var s := Block(t, u, id);
            var s' := UnBlock(t, u, id);
            && s.outcome == Returned(ArticleReply(Blocked, None))
            && s'.outcome == Returned(ArticleReply(Unblocked, None))
            && OnlyAt(t, s.table, i) && OnlyAt(t, s'.table, i)
            && u in s.table.rows[i].blockedBy && u !in s'.table.rows[i].blockedBy
            && (forall v :: v != u ==> (v in s.table.rows[i].blockedBy <==> v in a.blockedBy))
            && (forall v :: v != u ==> (v in s'.table.rows[i].blockedBy <==> v in a.blockedBy))
            && s.table.rows[i] == a.(blockedBy := s.table.rows[i].blockedBy)
            && s'.table.rows[i] == a.(blockedBy := s'.table.rows[i].blockedBy)
  {
    var i := FirstSelected(t.rows, ByArticleId(id)).value;
    UpdateOneAt(t, id, AddToSetOp(BlockedBy, u), i);
    UpdateOneAt(t, id, PullOp(BlockedBy, u), i);
  }

  /** Repeating `like` changes nothing more. */
  lemma {:induction false} LikeIdempotent(t: ArticleTable, u: string, id: string)
    ensures Like(Like(t, u, id).table, u, id) == Like(t, u, id)
  {
    var first := FirstSelected(t.rows, ByArticleId(id));
    if first.Some? {
      var i := first.value;
      UpdateOneAt(t, id, PullOp(Dislikes, u), i);
      var t1 := AfterUpdateOne(t, id, PullOp(Dislikes, u));
      UpdateOneAt(t1, id, AddToSetOp(Likes, u), i);
      var t2 := AfterUpdateOne(t1, id, AddToSetOp(Likes, u));
      UpdateOneAt(t2, id, PullOp(Dislikes, u), i);
      PullIdempotent(t.rows[i].dislikes, u);
      assert AfterUpdateOne(t2, id, PullOp(Dislikes, u)) == t2;
      UpdateOneAt(t2, id, AddToSetOp(Likes, u), i);
    }
  }

  /** Repeating `unLike` changes nothing more. */
  lemma {:induction false} UnLikeIdempotent(t: ArticleTable, u: string, id: string)
    ensures UnLike(UnLike(t, u, id).table, u, id) == UnLike(t, u, id)
  {
    var first := FirstSelected(t.rows, ByArticleId(id));
    if first.Some? {
      var i := first.value;
      UpdateOneAt(t, id, PullOp(Likes, u), i);
      var t1 := AfterUpdateOne(t, id, PullOp(Likes, u));
      UpdateOneAt(t1, id, AddToSetOp(Dislikes, u), i);
      var t2 := AfterUpdateOne(t1, id, AddToSetOp(Dislikes, u));
      UpdateOneAt(t2, id, PullOp(Likes, u), i);
      PullIdempotent(t.rows[i].likes, u);
      assert AfterUpdateOne(t2, id, PullOp(Likes, u)) == t2;
      UpdateOneAt(t2, id, AddToSetOp(Dislikes, u), i);
    }
  }

  /** Repeating `block` changes nothing more. */
  lemma {:induction false} BlockIdempotent(t: ArticleTable, u: string, id: string)
    ensures Block(Block(t, u, id).table, u, id) == Block(t, u, id)
  {
    var first := FirstSelected(t.rows, ByArticleId(id));
    if first.Some? {
      var i := first.value;
      UpdateOneAt(t, id, AddToSetOp(BlockedBy, u), i);
      var t1 := AfterUpdateOne(t, id, AddToSetOp(BlockedBy, u));
      UpdateOneAt(t1, id, AddToSetOp(BlockedBy, u), i);
      assert AfterUpdateOne(t1, id, AddToSetOp(BlockedBy, u)) == t1;
    }
  }

  /** Repeating `unBlock` changes nothing more. */
  lemma {:induction false} UnBlockIdempotent(t: ArticleTable, u: string, id: string)
    ensures UnBlock(UnBlock(t, u, id).table, u, id) == UnBlock(t, u, id)
  {
    var first := FirstSelected(t.rows, ByArticleId(id));
    if first.Some? {
      var i := first.value;
      UpdateOneAt(t, id, PullOp(BlockedBy, u), i);
      var t1 := AfterUpdateOne(t, id, PullOp(BlockedBy, u));
      UpdateOneAt(t1, id, PullOp(BlockedBy, u), i);
      PullIdempotent(t.rows[i].blockedBy, u);
      assert AfterUpdateOne(t1, id, PullOp(BlockedBy, u)) == t1;
    }
  }

  /** No user both likes and dislikes the article. */
  predicate Disjoint(a: Article)
  {
    forall v :: v in a.likes ==> v !in a.dislikes
  }

  /** like and unLike keep every article's likes and dislikes disjoint. */
  lemma {:induction false} ReactionsStayDisjoint(t: ArticleTable, u: string, id: string)
    requires forall a :: a in t.rows ==> Disjoint(a)
    ensures forall a :: a in Like(t, u, id).table.rows ==> Disjoint(a)
    ensures forall a :: a in UnLike(t, u, id).table.rows ==> Disjoint(a)
  {
    var first := FirstSelected(t.rows, ByArticleId(id));
    if first.Some? {
      var i := first.value;
      assert Disjoint(t.rows[i]);
      LikeEffect(t, u, id);
      UnLikeEffect(t, u, id);
      var s := Like(t, u, id);
      forall a | a in s.table.rows
        ensures Disjoint(a)
      {
        var j :| 0 <= j < |s.table.rows| && s.table.rows[j] == a;
        if j != i {
          assert a == t.rows[j] && t.rows[j] in t.rows;
        }
      }
      var s' := UnLike(t, u, id);
      forall a | a in s'.table.rows
        ensures Disjoint(a)
      {
        var j :| 0 <= j < |s'.table.rows| && s'.table.rows[j] == a;
        if j != i {
          assert a == t.rows[j] && t.rows[j] in t.rows;
        }
      }
    }
  }

  // ---------------------------------------------------------------------
  // deleteArticle

  /** Removing the owned article after the destroy requests `destroys`
      (none, or one for its image), which the host answers with `accepted`. */
  function DeleteAfterDestroy(t: ArticleTable, f: ArticleFilter, destroys: seq<string>, accepted: bool): ArticleStep
  {
    if destroys != [] && !accepted then ArticleStep(Threw(MediaFailure), t, destroys)
    else ArticleStep(Returned(ArticleReply(Deleted, None)), AfterDeleteOne(t, f), destroys)
  }

  /** deleteArticle: only the author may delete; the image is destroyed
      first, and only when the article has one. */
  function DeleteArticle(t: ArticleTable, userId: string, articleId: string, accepted: bool): ArticleStep
  {
    var f := OwnedBy(articleId, userId);
    match FindArticle(t.rows, f)
    case None => Reached(t, ArticleMissing)
    case Some(a) => DeleteAfterDestroy(t, f, if a.imageId != "" then [a.imageId] else [], accepted)
  }

  /** A delete by anyone but the author, or of an unknown article, replies
      NOT_FOUND and changes nothing; the author's delete removes exactly that
      article unless the host refuses to destroy its image, in which case
      the article stays. An article without an image is never held back by
      the host; for one with an image exactly that image is destroyed, and
      the delete succeeds exactly when the host accepts. */
  lemma {:induction false} DeleteIsOwnerGated(t: ArticleTable, userId: string, articleId: string, accepted: bool)
    requires Wf(t)
    ensures var s := DeleteArticle(t, userId, articleId, accepted);
            && ((forall a :: a in t.rows && a.id == articleId ==> a.authorId != userId) ==>
                  s == Reached(t, ArticleMissing))
            && (s.outcome.Threw? ==> s.table == t && s.outcome.fault == MediaFailure)
            && (s.outcome.Returned? && s.outcome.value.event == Deleted ==>
                  && (exists a :: a in t.rows && a.id == articleId && a.authorId == userId)
                  && |s.table.rows| == |t.rows| - 1 && Wf(s.table)
                  && (forall a :: a in s.table.rows <==> a in t.rows && a.id != articleId))
            && (forall a :: a in t.rows && a.id == articleId && a.authorId == userId && a.imageId == "" ==>
                  s.outcome == Returned(ArticleReply(Deleted, None)) && s.destroyed == [])
            && (forall a :: a in t.rows && a.id == articleId && a.authorId == userId && a.imageId != "" ==>
                  && s.destroyed == [a.imageId]
                  && (s.outcome == Returned(ArticleReply(Deleted, None)) <==> accepted))
  {
    var f := OwnedBy(articleId, userId);
    var found := FindArticle(t.rows, f);
    if found.Some? {
      DeleteOneRemovesOnlyTarget(t, f);
      forall a | a in t.rows && a.id == articleId
        ensures found.value == a
      {
        SameIdSameArticle(t, found.value, a);
      }
    }
  }

  // ---------------------------------------------------------------------
  // editPost

  /** Which image fields an edit with a file writes. */
  datatype ImageFields = ImageAndId | ImageOnly

  /** editPost: the article is looked up by id; the file, if any, is
      uploaded, then the old image (if any) is destroyed, and finally one
      `$set` writes the text fields and the new image fields. */
  function EditPost(t: ArticleTable, articleId: string, e: ArticleFields, upload: Upload, accepted: bool,
                    writes: ImageFields): ArticleStep
  {
    match FindArticle(t.rows, ByArticleId(articleId))
    case None => Reached(t, EditNotFound)
    case Some(existing) =>
      match upload
      case UploadFailed => ArticleStep(Threw(MediaFailure), t, [])
      case NoFile =>
        var (t', r) := AfterSetById(t, articleId, Patch(e.title, e.content, e.category, e.tags, None, None));
        ArticleStep(Returned(ArticleReply(Updated, r)), t', [])
      case Uploaded(asset) =>
        var destroys := if existing.imageId != "" then [existing.imageId] else [];
        if destroys != [] && !accepted then ArticleStep(Threw(MediaFailure), t, destroys)
        else
          var p := Patch(e.title, e.content, e.category, e.tags, Some(asset.secureUrl),
                         if writes == ImageAndId then Some(asset.publicId) else None);
          var (t', r) := AfterSetById(t, articleId, p);
          ArticleStep(Returned(ArticleReply(Updated, r)), t', destroys)
  }

  /** editPost with the image and its id written together: an unknown id is
      NOT_FOUND; a failed upload, or a refused destroy of the old image,
      raises and changes nothing; otherwise the edit succeeds, the text
      fields are overwritten, image and imageId change only when a file was
      uploaded, and then they name the new asset, after the old one (if any)
      was destroyed. Nothing else changes. */
  lemma {:induction false} EditTracksImage(t: ArticleTable, articleId: string, e: ArticleFields, upload: Upload, accepted: bool)
    requires Wf(t)
    ensures var s := EditPost(t, articleId, e, upload, accepted, ImageAndId);
            && ((forall a :: a in t.rows ==> a.id != articleId) ==> s == Reached(t, EditNotFound))
            && (s.outcome.Threw? ==> s.table == t)
            && (s.outcome.Returned? && s.outcome.value.event == Updated ==>
                  var i := FirstSelected(t.rows, ByArticleId(articleId)).value;
                  var a := t.rows[i];
                  var b := s.outcome.value.article.value;
                  && s.table == t.(rows := t.rows[i := b]) && Wf(s.table)
                  && b == a.(title := e.title, content := e.content, category := e.category, tags := e.tags,
                             image := b.image, imageId := b.imageId)
                  && (upload.NoFile? ==> b.image == a.image && b.imageId == a.imageId && s.destroyed == [])
                  && (upload.Uploaded? ==>
                        && b.image == upload.asset.secureUrl && b.imageId == upload.asset.publicId
                        && s.destroyed == (if a.imageId != "" then [a.imageId] else [])))
            && (forall a :: a in t.rows && a.id == articleId ==>
                  && (upload.NoFile? || (upload.Uploaded? && (a.imageId == "" || accepted)) ==>
                        s.outcome.Returned? && s.outcome.value.event == Updated && s.outcome.value.article.Some?)
                  && (upload.UploadFailed? ==> s == ArticleStep(Threw(MediaFailure), t, []))
                  && (upload.Uploaded? && a.imageId != "" && !accepted ==>
                        s == ArticleStep(Threw(MediaFailure), t, [a.imageId])))
  {
    var found := FindArticle(t.rows, ByArticleId(articleId));
    forall a | a in t.rows && a.id == articleId
      ensures found == Some(a)
    {
      SameIdSameArticle(t, found.value, a);
    }
  }

  // ---------------------------------------------------------------------
  // getArticles

  /** `Math.ceil(total / limit)` for a positive limit. */
  function CeilDiv(total: nat, limit: int): (pages: nat)
    requires limit > 0
    ensures total <= pages * limit
    ensures pages == 0 || (pages - 1) * limit < total
  {
    CeilDivBounds(total, limit);
    (total + limit - 1) / limit
  }

  lemma CeilDivBounds(total: nat, limit: int)
    requires limit > 0
    ensures var p := (total + limit - 1) / limit;
            p >= 0 && total <= p * limit && (p == 0 || (p - 1) * limit < total)
  {
    var p := (total + limit - 1) / limit;
    var q := (total + limit - 1) % limit;
    assert total + limit - 1 == p * limit + q && 0 <= q < limit;
    assert p * limit >= total;
    if p > 0 {
      assert (p - 1) * limit == p * limit - limit;
    }
  }

  datatype Listing = Listing(items: seq<Article>, total: nat, pages: nat)

  /** What getArticles returns to the controller. */
  datatype ListReturn = ListReturn(
    message: string,
    status: Status,
    items: Option<seq<Article>>,
    total: Option<nat>,
    pages: Option<nat>)

  /** The catch block's reply, the same in every article operation of both copies. */
  const InternalError: string := "Internal server error"

  /** A listing as both copies return it: a refused query is caught as a 500. */
  function ListingReply(c: Completion<Listing>): ListReturn
  {
    match c
    case Threw(_) => ListReturn(InternalError, INTERNAL_SERVER_ERROR, None, None, None)
    case Returned(l) => ListReturn("", OK, Some(l.items), Some(l.total), Some(l.pages))
  }

  /** getArticles: the author's articles when `isCreator`, otherwise all,
      newest first; page `page` of `limit` items; a negative skip (page below
      1) is refused by the store. */
  function GetArticles(t: ArticleTable, userId: string, page: int, limit: int, isCreator: bool): Completion<Listing>
    requires limit > 0
  {
    var f := if isCreator then ByAuthor(userId) else AllArticles;
    var skip := (page - 1) * limit;
    if skip < 0 then Threw(NegativeSkip)
    else
      var listed := NewestFirst(t.rows, f);
      Returned(Listing(Window(listed, skip, limit), |listed|, CeilDiv(|listed|, limit)))
  }

  lemma MulMonotone(a: int, b: int, c: int)
    requires a <= b && c >= 0
    ensures a * c <= b * c
  {
    assert b * c - a * c == (b - a) * c;
  }

  /** Page `page` (counted from 1) starts inside a list of `total` articles
      exactly when it is at most the reported page count. */
  lemma PageStartsInside(total: nat, limit: int, page: int)
    requires limit > 0 && page >= 1
    ensures 0 <= (page - 1) * limit
    ensures (page - 1) * limit < total <==> page <= CeilDiv(total, limit)
  {
    var p := CeilDiv(total, limit);
    MulMonotone(0, page - 1, limit);
    if page <= p {
      MulMonotone(page - 1, p - 1, limit);
    } else {
      MulMonotone(p, page - 1, limit);
    }
  }

  /** The store refuses the query exactly when the page is below 1, since
      the skip is then negative. */
  lemma PageBelowOneRefused(t: ArticleTable, userId: string, page: int, limit: int, isCreator: bool)
    requires limit > 0
    ensures GetArticles(t, userId, page, limit, isCreator).Threw? <==> page < 1
  {
    if page < 1 {
      MulMonotone(page - 1, -1, limit);
    } else {
      MulMonotone(0, page - 1, limit);
    }
  }

  /** A page holds at most `limit` articles, all matching the filter; the
      total is zero exactly when no article matches, and then there are no
      pages; pages 1 to `pages` are non-empty and the pages after them are
      empty. */
  lemma {:induction false} PageContents(t: ArticleTable, userId: string, page: int, limit: int, isCreator: bool)
    requires limit > 0 && page >= 1
    ensures var r := GetArticles(t, userId, page, limit, isCreator);
            && r.Returned?
            && |r.value.items| <= limit
            && (forall a :: a in r.value.items ==> a in t.rows && (isCreator ==> a.authorId == userId))
            && (r.value.total == 0 <==> forall a :: a in t.rows ==> isCreator && a.authorId != userId)
            && (r.value.total == 0 ==> r.value.pages == 0)
            && (page <= r.value.pages <==> r.value.items != [])
  {
    var f := if isCreator then ByAuthor(userId) else AllArticles;
    var skip := (page - 1) * limit;
    var listed := NewestFirst(t.rows, f);
    PageStartsInside(|listed|, limit, page);
    var items := Window(listed, skip, limit);
    var pages := CeilDiv(|listed|, limit);
    assert GetArticles(t, userId, page, limit, isCreator) == Returned(Listing(items, |listed|, pages));
    WindowSelects(t.rows, f, skip, limit);
    ListedEmptyIff(t.rows, f);
  }

  /** The listing is empty exactly when the filter selects nothing. */
  lemma ListedEmptyIff(rows: seq<Article>, f: ArticleFilter)
    ensures NewestFirst(rows, f) == [] <==> forall a :: a in rows ==> !Selects(f, a)
  {
    var listed := NewestFirst(rows, f);
    if |listed| > 0 {
      assert listed[0] in listed;
    }
  }

  lemma WindowSelects(rows: seq<Article>, f: ArticleFilter, skip: nat, limit: nat)
    ensures forall a :: a in Window(NewestFirst(rows, f), skip, limit) ==> a in rows && Selects(f, a)
  {
    var listed := NewestFirst(rows, f);
    var items := Window(listed, skip, limit);
    forall a | a in items
      ensures a in rows && Selects(f, a)
    {
      var k :| 0 <= k < |items| && items[k] == a;
      assert a == listed[skip + k];
    }
  }

  /** The concatenation of pages 1 to n of a list, `limit` per page. */
  function PagesUpTo(s: seq<Article>, limit: nat, n: nat): seq<Article>
  {
    if n == 0 then [] else PagesUpTo(s, limit, n - 1) + Window(s, (n - 1) * limit, limit)
  }

  function Min(a: nat, b: nat): nat
  {
    if a <= b then a else b
  }

  /** The page starting at `skip` continues the prefix that ends there. */
  lemma AppendWindow(s: seq<Article>, skip: nat, limit: nat)
    ensures s[..Min(skip, |s|)] + Window(s, skip, limit) == s[..Min(skip + limit, |s|)]
  {
    if skip < |s| {
      assert Window(s, skip, limit) == s[skip..Min(skip + limit, |s|)];
      assert s[..skip] + s[skip..Min(skip + limit, |s|)] == s[..Min(skip + limit, |s|)];
    }
  }

  lemma MulStep(n: nat, limit: nat)
    requires n > 0
    ensures n * limit == (n - 1) * limit + limit
  {
  }

  lemma {:induction false} PagesUpToIsPrefix(s: seq<Article>, limit: nat, n: nat)
    ensures PagesUpTo(s, limit, n) == s[..Min(n * limit, |s|)]
  {
    if n > 0 {
      PagesUpToIsPrefix(s, limit, n - 1);
      var skip := (n - 1) * limit;
      MulStep(n, limit);
      AppendWindow(s, skip, limit);
    }
  }

  /** Reading pages 1 to `pages` in order gives every listed article exactly
      once, in the listing's order. */
  lemma {:induction false} PagesPartitionListing(t: ArticleTable, userId: string, limit: int, isCreator: bool)
    requires limit > 0
    ensures var f := if isCreator then ByAuthor(userId) else AllArticles;
            var all := NewestFirst(t.rows, f);
            PagesUpTo(all, limit, CeilDiv(|all|, limit)) == all
  {
    var f := if isCreator then ByAuthor(userId) else AllArticles;
    var all := NewestFirst(t.rows, f);
    PagesUpToIsPrefix(all, limit, CeilDiv(|all|, limit));
  }
}
