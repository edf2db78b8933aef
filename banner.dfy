/** The site banner: a table of at most one row, id 1, read with a default and written by
    merging a new row over id 1. */
module Banners {
  import opened Wrappers
  import opened Schema
  import opened Database

  /** The colour is part of the request but is not stored. */
  datatype BannerRequest = BannerRequest(title: string, content: string, bannerColor: string, isDismissable: bool)

  /** What `get_banner` answers when no banner has been set. */
  const NoBanner: Banner := Banner(1, "", "", true, "0")

  /** `get_banner`: the stored banner, or the empty dismissable banner with identifier "0". */
  function GetBanner(banner: Option<Banner>): (b: Banner)
    ensures banner.None? ==> b.id == 1 && b.title == "" && b.content == "" && b.isDismissable && b.bannerIdentifier == "0"
    ensures banner.Some? ==> b == banner.value
    ensures SingleBanner(banner) ==> b.id == 1
  {
    match banner
    case None => NoBanner
    case Some(stored) => stored
  }

  /** The row `set_banner` merges: id 1, the request's text and flag, and `identifier` as the
      new banner identifier. */
  function BannerRow(req: BannerRequest, identifier: string): (b: Banner)
    ensures b.id == 1
    ensures b.title == req.title && b.content == req.content && b.isDismissable == req.isDismissable
    ensures b.bannerIdentifier == identifier
  {
    Banner(1, req.title, req.content, req.isDismissable, identifier)
  }

  /** `set_banner`: whatever was there before, afterwards the one banner row is id 1 with the
      request's title, content and dismissable flag and a new identifier; the colour is
      dropped. `identifier` stands for the freshly generated uuid. */
  method SetBanner(db: Store, req: BannerRequest, identifier: string) returns (r: string)
    requires db.Valid()
    modifies db
    ensures db.Valid()
    ensures r == "Banner posted."
    ensures db.Tables() == old(db.Tables()).(banner := Some(BannerRow(req, identifier)))
  {
    db.banner := Some(Banner(1, req.title, req.content, req.isDismissable, identifier));
    return "Banner posted.";
  }

  /** Reading after a write gives back what was written, and the colour has no effect on it. */
  lemma GetAfterSet(req: BannerRequest, color: string, identifier: string)
    ensures GetBanner(Some(BannerRow(req, identifier))) == GetBanner(Some(BannerRow(req.(bannerColor := color), identifier)))
    ensures var b := GetBanner(Some(BannerRow(req, identifier)));
      b.id == 1 && b.title == req.title && b.content == req.content && b.isDismissable == req.isDismissable
  {
  }
}
