/** Niko pictures in the image directory, and the upload gate shared by every service that
    accepts an image: content type, size bound and whether the bytes decode as an image. */
module Images {
  import opened Wrappers
  import opened Schema
  import opened Text
  import opened Database

  /** Two mebibytes. */
  const MaxImgSize: int := 2 * 1024 * 1024

  /** An uploaded file as the web layer hands it over. The content type and the size may be
      absent; `decodes` is what the image library reports when it opens the bytes. */
  datatype Upload = Upload(contentType: Option<string>, size: Option<int>, decodes: bool)

  /** Where a picture request is served from. */
  datatype ImagePath = InImageDir(name: string) | DefaultImage

  /** The content type is present, non-empty and starts with `image/`. */
  predicate IsImageType(u: Upload)
  {
    !(u.contentType.None? || u.contentType.value == "") && StartsWith(u.contentType.value, "image/")
  }

  /** The size is present, non-zero and at most `MaxImgSize`. */
  predicate IsAcceptedSize(u: Upload)
  {
    !(u.size.None? || u.size.value == 0) && !(u.size.value > MaxImgSize)
  }

  /** The size bound is inclusive: a real (non-negative) size is accepted exactly when it
      lies between 1 byte and 2 MiB. */
  lemma AcceptedSizes(u: Upload)
    requires u.size.Some? && u.size.value >= 0
    ensures IsAcceptedSize(u) <==> 1 <= u.size.value <= 2097152
  {
  }

  /** The result of the checks every upload goes through, in the order they run. */
  datatype Gate = NotAnImage | BadSize | Undecodable | Accepted

  function CheckUpload(u: Upload): (g: Gate)
    ensures g == Accepted <==> IsImageType(u) && IsAcceptedSize(u) && u.decodes
    ensures g == NotAnImage <==> !IsImageType(u)
    ensures g == BadSize <==> IsImageType(u) && !IsAcceptedSize(u)
    ensures g == Undecodable <==> IsImageType(u) && IsAcceptedSize(u) && !u.decodes
  {
    if !IsImageType(u) then NotAnImage
    else if !IsAcceptedSize(u) then BadSize
    else if !u.decodes then Undecodable
    else Accepted
  }

  // ---------------------------------------------------------------------------
  // Niko pictures
  // ---------------------------------------------------------------------------

  /** `niko-{id}.png`. */
  function NikoImageName(id: Id): (name: string)
    ensures StartsWith(name, "niko-")
  {
    "niko-" + Decimal(id) + ".png"
  }

  /** Different nikos never share a picture file. */
  lemma NikoImageNameInjective(a: Id, b: Id)
    requires NikoImageName(a) == NikoImageName(b)
    ensures a == b
  {
    var na, nb := NikoImageName(a), NikoImageName(b);
    assert na[5..|na| - 4] == Decimal(a);
    assert nb[5..|nb| - 4] == Decimal(b);
    DecimalInjective(a, b);
  }

  /** `get_image`: nothing for an unknown niko, otherwise its picture when the file exists
      and the default picture when it does not. */
  function GetImage(nikos: map<Id, Niko>, files: set<string>, id: Id): (r: Option<ImagePath>)
    ensures r.None? <==> id !in nikos
    ensures r.Some? && r.value.InImageDir? ==> r.value.name == NikoImageName(id) && r.value.name in files
    ensures r.Some? && r.value.DefaultImage? ==> NikoImageName(id) !in files
  {
    if id !in nikos then None
    else if NikoImageName(id) in files then Some(InImageDir(NikoImageName(id)))
    else Some(DefaultImage)
  }

  /** `upload_image`: for an existing niko and an upload that passes the gate, (re)writes
      the niko's picture and answers True; otherwise answers None and writes nothing. */
  method UploadImage(db: Store, id: Id, u: Upload) returns (r: Option<bool>)
    modifies db
    ensures r.Some? <==> id in old(db.nikos) && CheckUpload(u) == Accepted
    ensures r.Some? ==> r.value
    ensures r.Some? ==> db.Tables() == old(db.Tables()).(files := old(db.files) + {NikoImageName(id)})
    ensures r.None? ==> db.Tables() == old(db.Tables())
  {
    if id !in db.nikos {
      return None;
    }
    if !IsImageType(u) {
      return None;
    }
    if !IsAcceptedSize(u) {
      return None;
    }
    if !u.decodes {
      return None;
    }
    db.files := db.files + {NikoImageName(id)};
    return Some(true);
  }

  /** `delete_image`: removes an existing niko's picture and answers True; answers None, with
      nothing removed, for an unknown niko or a picture file that is not there. */
  method DeleteImage(db: Store, id: Id) returns (r: Option<bool>)
    modifies db
    ensures r.Some? <==> id in old(db.nikos) && NikoImageName(id) in old(db.files)
    ensures r.Some? ==> r.value
    ensures r.Some? ==> db.Tables() == old(db.Tables()).(files := old(db.files) - {NikoImageName(id)})
    ensures r.None? ==> db.Tables() == old(db.Tables())
    ensures NikoImageName(id) !in db.files || id !in old(db.nikos)
  {
    if id !in db.nikos {
      return None;
    }
    if NikoImageName(id) !in db.files {
      return None;
    }
    db.files := db.files - {NikoImageName(id)};
    return Some(true);
  }

  // ---------------------------------------------------------------------------
  // Pictures stored under a recorded file name (posts, submissions)
  // ---------------------------------------------------------------------------

  /** The picture for a row that records the name of its file: that file when the name is
      non-empty and the file exists, the default picture otherwise. */
  function StoredImage(name: string, files: set<string>): (p: ImagePath)
    ensures p.InImageDir? <==> name != "" && name in files
    ensures p.InImageDir? ==> p.name == name
  {
    if |name| == 0 then DefaultImage
    else if name !in files then DefaultImage
    else InImageDir(name)
  }

  /** The name of a picture saved under a fresh identifier: `{identifier}.png`. */
  function SavedImageName(identifier: string): (name: string)
    ensures |name| == |identifier| + 4 && name[|identifier|..] == ".png"
    ensures name != ""
  {
    identifier + ".png"
  }
}
