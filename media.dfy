/** The image host (src/utils/cloudinary.ts) as the services see it: an
    upload of the request's file that yields an asset or fails, and a destroy
    request by public id that the host may refuse. Whether a remote call
    succeeds is not decided here; it is given. */
module Media {
  import opened Common

  /** `secure_url` and `public_id` of an uploaded image. */
  datatype Asset = Asset(secureUrl: string, publicId: string)

  /** `req.file` together with what uploading it gave. */
  datatype Upload = NoFile | Uploaded(asset: Asset) | UploadFailed

  /** The host, recording every destroy request in the order it was made. */
  class MediaHost {
    var destroyed: seq<string>

    constructor ()
      ensures destroyed == []
    {
      destroyed := [];
    }

    /** `cloudinary.uploader.destroy(publicId, { type: "authenticated" })`;
        `accepted` is the host's answer. */
    method Destroy(publicId: string, accepted: bool) returns (r: Completion<()>)
      modifies this
      ensures destroyed == old(destroyed) + [publicId]
      ensures r.Returned? <==> accepted
      ensures r.Threw? ==> r.fault == MediaFailure
    {
      destroyed := destroyed + [publicId];
      r := if accepted then Returned(()) else Threw(MediaFailure);
    }
  }
}
