/** The refactored article service
    (src/services/implementation/article.service.ts), over the articles
    collection (the repository's calls are the collection's own) and the
    image host. Every operation catches its faults as a 500. */
module ArticleServices {
  import opened Common
  import opened Media
  import opened ArticleModel
  import opened ArticleSpec

  function Message(e: ArticleEvent): string
  {
    match e
    case Created => "Article created"
    case EditNotFound => "Article not found"
    case Updated => "Article updated"
    case ArticleMissing => "This article doesn't exist"
    case Deleted => "Article deleted"
    case Liked => "Article Liked"
    case Disliked => "Article Disliked"
    case Blocked => "Article blocked"
    case Unblocked => "Article unblocked"
  }

  function Render(o: Completion<ArticleReply>): ArticleReturn
  {
    match o
    case Threw(_) => ArticleReturn(InternalError, INTERNAL_SERVER_ERROR, None)
    case Returned(ArticleReply(e, a)) => ArticleReturn(Message(e), StatusOf(e), a)
  }

  class ArticleService {
    const articles: ArticleCollection
    const media: MediaHost

    constructor (articles: ArticleCollection, media: MediaHost)
      ensures this.articles == articles && this.media == media
    {
      this.articles := articles;
      this.media := media;
    }

    /** createPost by `authorId`, the request's user id. */
    method CreatePost(authorId: string, e: ArticleFields, upload: Upload) returns (r: ArticleReturn)
      requires articles.Valid()
      modifies articles
      ensures articles.Valid()
      ensures var s := ArticleSpec.CreatePost(old(articles.State()), authorId, e, upload);
              && r == Render(s.outcome)
              && articles.State() == s.table
    {
      var image, imageId := "", "";
      if upload.UploadFailed? {
        return Render(Threw(MediaFailure));
      }
      if upload.Uploaded? {
        image, imageId := upload.asset.secureUrl, upload.asset.publicId;
      }
      var article := articles.Create(Draft(e.title, e.content, image, imageId, e.category, e.tags, authorId));
      r := Render(Returned(ArticleReply(Created, Some(article))));
    }

    /** editPost: with a file, the new image and its id are both written. */
    method EditPost(articleId: string, e: ArticleFields, upload: Upload, accepted: bool) returns (r: ArticleReturn)
      requires articles.Valid()
      modifies articles, media
      ensures articles.Valid()
      ensures var s := ArticleSpec.EditPost(old(articles.State()), articleId, e, upload, accepted, ImageAndId);
              && r == Render(s.outcome)
              && articles.State() == s.table
              && media.destroyed == old(media.destroyed) + s.destroyed
    {
      var existingArticle := FindArticle(articles.rows, ByArticleId(articleId));
      if existingArticle.None? {
        return Render(Returned(ArticleReply(EditNotFound, None)));
      }
      var updateData := Patch(e.title, e.content, e.category, e.tags, None, None);
      if upload.UploadFailed? {
        return Render(Threw(MediaFailure));
      }
      if upload.Uploaded? {
        if existingArticle.value.imageId != "" {
          var destroyed := media.Destroy(existingArticle.value.imageId, accepted);
          if destroyed.Threw? {
            return Render(Threw(destroyed.fault));
          }
        }
        updateData := updateData.(image := Some(upload.asset.secureUrl), imageId := Some(upload.asset.publicId));
      }
      var updatedArticle := articles.FindByIdAndUpdate(articleId, updateData);
      r := Render(Returned(ArticleReply(Updated, updatedArticle)));
    }

    /** getArticles */
    method GetArticles(userId: string, page: int, limit: int, isCreator: bool) returns (r: ListReturn)
      requires limit > 0
      ensures r == ListingReply(ArticleSpec.GetArticles(articles.State(), userId, page, limit, isCreator))
      ensures r.status == OK <==> page >= 1
      ensures r.status == OK ==> r.items.Some? && |r.items.value| <= limit
    {
      PageBelowOneRefused(articles.State(), userId, page, limit, isCreator);
      var filter := if isCreator then ByAuthor(userId) else AllArticles;
      var skip := (page - 1) * limit;
      if skip < 0 {
        return ListingReply(Threw(NegativeSkip));
      }
      var listed := NewestFirst(articles.rows, filter);
      var docs := Window(listed, skip, limit);
      var total := |listed|;
      r := ListReturn("", OK, Some(docs), Some(total), Some(CeilDiv(total, limit)));
    }

    /** deleteArticle: the image is destroyed first, and only if there is one. */
    method DeleteArticle(userId: string, articleId: string, accepted: bool) returns (r: ArticleReturn)
      requires articles.Valid()
      modifies articles, media
      ensures articles.Valid()
      ensures var s := ArticleSpec.DeleteArticle(old(articles.State()), userId, articleId, accepted);
              && r == Render(s.outcome)
              && articles.State() == s.table
              && media.destroyed == old(media.destroyed) + s.destroyed
    {
      var found := FindArticle(articles.rows, OwnedBy(articleId, userId));
      if found.None? {
        return Render(Returned(ArticleReply(ArticleMissing, None)));
      }
      if found.value.imageId != "" {
        var destroyed := media.Destroy(found.value.imageId, accepted);
        if destroyed.Threw? {
          return Render(Threw(destroyed.fault));
        }
      }
      articles.DeleteOne(OwnedBy(articleId, userId));
      r := Render(Returned(ArticleReply(Deleted, None)));
    }

    /** like: pull from dislikes, then add to likes. */
    method Like(userId: string, articleId: string) returns (r: ArticleReturn)
      requires articles.Valid()
      modifies articles
      ensures articles.Valid()
      ensures var s := ArticleSpec.Like(old(articles.State()), userId, articleId);
              && r == Render(s.outcome) && articles.State() == s.table
    {
      var found := FindArticle(articles.rows, ByArticleId(articleId));
      if found.None? {
        return Render(Returned(ArticleReply(ArticleMissing, None)));
      }
      articles.UpdateOne(articleId, PullOp(Dislikes, userId));
      articles.UpdateOne(articleId, AddToSetOp(Likes, userId));
      r := Render(Returned(ArticleReply(Liked, None)));
    }

    /** unLike: pull from likes, then add to dislikes. */
    method UnLike(userId: string, articleId: string) returns (r: ArticleReturn)
      requires articles.Valid()
      modifies articles
      ensures articles.Valid()
      ensures var s := ArticleSpec.UnLike(old(articles.State()), userId, articleId);
              && r == Render(s.outcome) && articles.State() == s.table
    {
      var found := FindArticle(articles.rows, ByArticleId(articleId));
      if found.None? {
        return Render(Returned(ArticleReply(ArticleMissing, None)));
      }
      articles.UpdateOne(articleId, PullOp(Likes, userId));
      articles.UpdateOne(articleId, AddToSetOp(Dislikes, userId));
      r := Render(Returned(ArticleReply(Disliked, None)));
    }

    /** block */
    method Block(userId: string, articleId: string) returns (r: ArticleReturn)
      requires articles.Valid()
      modifies articles
      ensures articles.Valid()
      ensures var s := ArticleSpec.Block(old(articles.State()), userId, articleId);
              && r == Render(s.outcome) && articles.State() == s.table
    {
      var found := FindArticle(articles.rows, ByArticleId(articleId));
      if found.None? {
        return Render(Returned(ArticleReply(ArticleMissing, None)));
      }
      articles.UpdateOne(articleId, AddToSetOp(BlockedBy, userId));
      r := Render(Returned(ArticleReply(Blocked, None)));
    }

    /** unBlock */
    method UnBlock(userId: string, articleId: string) returns (r: ArticleReturn)
      requires articles.Valid()
      modifies articles
      ensures articles.Valid()
      ensures var s := ArticleSpec.UnBlock(old(articles.State()), userId, articleId);
              && r == Render(s.outcome) && articles.State() == s.table
    {
      var found := FindArticle(articles.rows, ByArticleId(articleId));
      if found.None? {
        return Render(Returned(ArticleReply(ArticleMissing, None)));
      }
      articles.UpdateOne(articleId, PullOp(BlockedBy, userId));
      r := Render(Returned(ArticleReply(Unblocked, None)));
    }
  }
}
