/** Where profile images live and how the service finds them again
    (backend/src/auth/profile-image.service.ts). In development an upload is a
    file `<uuid><ext>` in the local `uploads` folder, served from
    `http://localhost:3000/uploads/`; otherwise it is a Cloudinary asset, deleted
    by the public id read back out of its URL. The folder and the Cloudinary
    account are modelled as sets of names; the uuid and Cloudinary's answer to an
    upload are parameters. */
module ProfileImage {
  import opened Wrappers
  import opened Text
  import opened Tables

  const BaseUrl := "http://localhost:3000"
  const CloudinaryHost := "cloudinary.com"

  /** The text form of a version-4 uuid: 36 lower-case hex digits and dashes. */
  predicate IsUuidText(s: string) {
    && |s| == 36
    && forall k | 0 <= k < |s| ::
         if k == 8 || k == 13 || k == 18 || k == 23 then s[k] == '-'
         else IsDigit(s[k]) || 'a' <= s[k] <= 'f'
  }

  /** The last index of `c` in `s`. */
  function LastIndexOf(s: string, c: char): (r: Option<nat>)
    ensures r.Some? ==> r.value < |s| && s[r.value] == c && forall j | r.value < j < |s| :: s[j] != c
    ensures r.None? ==> c !in s
  {
    if s == [] then None
    else if s[|s| - 1] == c then Some(|s| - 1)
    else LastIndexOf(s[..|s| - 1], c)
  }

  /** `path.extname(name)`: from the last dot of the base name to its end; empty
      when the base name has no dot, starts with its only dot, or is `..`. */
  function ExtName(name: string): (ext: string)
    ensures '/' !in ext
    ensures ext == "" || (ext[0] == '.' && '.' !in ext[1..])
    ensures var base := LastSegment(name, '/');
      && (ext != "" ==> |ext| <= |base| && base[|base| - |ext|..] == ext)
      && (LastIndexOf(base, '.').Some? && LastIndexOf(base, '.').value > 0 && base != ".." ==>
            ext == base[LastIndexOf(base, '.').value..])
      && (LastIndexOf(base, '.').None? || LastIndexOf(base, '.').value == 0 || base == ".." ==> ext == "")
  {
    var base := LastSegment(name, '/');
    match LastIndexOf(base, '.')
    case None => ""
    case Some(i) => if i == 0 || base == ".." then "" else base[i..]
  }

  /** A name without `/` whose last dot sits at `i > 0` has the extension
      from that dot on. */
  lemma ExtNameAtLastDot(name: string, i: nat)
    requires '/' !in name && 0 < i < |name| && name[i] == '.' && name != ".."
    requires forall j | i < j < |name| :: name[j] != '.'
    ensures ExtName(name) == name[i..]
  {
    SplitNoSeparator(name, '/');
    var r := LastIndexOf(name, '.');
    assert r.Some? && r.value == i;
  }

  /** The extension of a plain file name. */
  lemma ExtNameExample()
    ensures ExtName("photo.jpg") == ".jpg"
  {
    var photo := "photo.jpg";
    assert forall j | 0 <= j < |photo| :: photo[j] != '/' && (j > 5 ==> photo[j] != '.');
    ExtNameAtLastDot(photo, 5);
  }

  /** Of several dots, the last one starts the extension. */
  lemma ExtNameLastDotWins()
    ensures ExtName("archive.tar.gz") == ".gz"
  {
    var archive := "archive.tar.gz";
    assert forall j | 0 <= j < |archive| :: archive[j] != '/' && (j > 11 ==> archive[j] != '.');
    ExtNameAtLastDot(archive, 11);
  }

  /** The URL under which a development upload is served. */
  function LocalUploadUrl(fileName: string): (url: string)
    ensures |url| == |BaseUrl| + 9 + |fileName|
    ensures url[..|BaseUrl|] == BaseUrl && url[|url| - |fileName|..] == fileName
    ensures '/' !in fileName && fileName != "" ==> LocalFileName(url) == Some(fileName)
  {
    var dir := BaseUrl + "/uploads";
    assert BaseUrl + "/uploads/" + fileName == dir + ['/'] + fileName;
    SplitAround(dir, '/', fileName);
    if '/' !in fileName then SplitNoSeparator(fileName, '/'); dir + ['/'] + fileName
    else dir + ['/'] + fileName
  }

  /** The file-name extraction of `deleteFromLocal`: the last `/`-segment of the
      URL, when it is not empty. */
  function LocalFileName(url: string): (fileName: Option<string>)
    ensures fileName.Some? ==> fileName.value != "" && '/' !in fileName.value
    ensures fileName.None? <==> url == "" || url[|url| - 1] == '/'
    ensures fileName.Some? ==> var n := |fileName.value|;
      n <= |url| && url[|url| - n..] == fileName.value && (n == |url| || url[|url| - n - 1] == '/')
  {
    var last := LastSegment(url, '/');
    LastSegmentIsSuffix(url, '/');
    LastSegmentEmptyIff(url, '/');
    if last == "" then None else Some(last)
  }

  predicate IsUploadSegment(part: string) { part == "upload" }

  /** The segment work of `extractPublicIdFromUrl`: the segments from the second
      one after the first `upload` segment, with the last one cut at its first
      dot (the in-place overwrite of the last element), joined with `/`. */
  function PublicIdOfParts(parts: seq<string>): (publicId: Option<string>)
    ensures publicId.Some? <==> exists i | 0 <= i < |parts| - 2 :: IsUploadSegment(parts[i])
  {
    match FindIndex(parts, IsUploadSegment)
    case None => None
    case Some(uploadIndex) =>
      if uploadIndex + 2 < |parts| then
        var relevant := parts[uploadIndex + 2..];
        var lastPart := relevant[|relevant| - 1];
        var fileNameWithoutExt := Split(lastPart, '.')[0];
        Some(Join(relevant[|relevant| - 1 := fileNameWithoutExt], '/'))
      else None
  }

  /** `extractPublicIdFromUrl`: nothing for a URL that is not on Cloudinary. */
  function PublicId(url: string): (publicId: Option<string>)
    ensures !Contains(url, CloudinaryHost) ==> publicId == None
  {
    if !Contains(url, CloudinaryHost) then None else PublicIdOfParts(Split(url, '/'))
  }

  /** The file of a development upload is found again from its URL. */
  lemma LocalUploadRoundTrip(uuid: string, originalName: string)
    requires IsUuidText(uuid)
    ensures LocalFileName(LocalUploadUrl(uuid + ExtName(originalName))) == Some(uuid + ExtName(originalName))
  {
    var w := uuid + ExtName(originalName);
    assert '/' !in w by {
      assert forall k | 0 <= k < |uuid| :: uuid[k] != '/';
    }
    assert LocalUploadUrl(w) == (BaseUrl + "/uploads") + ['/'] + w;
    SplitAround(BaseUrl + "/uploads", '/', w);
    SplitNoSeparator(w, '/');
  }

  /** A Cloudinary URL `…/upload/<version>/<folders>/<file>` with no earlier
      `upload` segment has the public id `<folders>/<file up to its first dot>`. */
  lemma CloudinaryUrlShape(head: seq<string>, version: string, folders: seq<string>, file: string)
    requires forall k | 0 <= k < |head| :: '/' !in head[k] && !IsUploadSegment(head[k])
    requires '/' !in version && '/' !in file
    requires forall k | 0 <= k < |folders| :: '/' !in folders[k]
    requires Contains(Join(head + ["upload", version] + folders + [file], '/'), CloudinaryHost)
    ensures PublicId(Join(head + ["upload", version] + folders + [file], '/'))
      == Some(Join(folders + [Split(file, '.')[0]], '/'))
  {
    var rest := ["upload", version] + folders + [file];
    var parts := head + rest;
    assert parts == head + ["upload", version] + folders + [file];
    PartsHaveNoSlash(head, rest, version, folders, file);
    SplitJoin(parts, '/');
    PublicIdOfSegments(head, version, folders, file);
  }

  lemma PublicIdOfSegments(head: seq<string>, version: string, folders: seq<string>, file: string)
    requires forall k | 0 <= k < |head| :: !IsUploadSegment(head[k])
    ensures PublicIdOfParts(head + ["upload", version] + folders + [file]) == Some(Join(folders + [Split(file, '.')[0]], '/'))
  {
    var rest := ["upload", version] + folders + [file];
    var parts := head + rest;
    assert parts == head + ["upload", version] + folders + [file];
    FindIndexAfterPrefix(head, rest, IsUploadSegment);
    var relevant := folders + [file];
    assert parts[|head| + 2..] == relevant;
    assert relevant[|relevant| - 1 := Split(file, '.')[0]] == folders + [Split(file, '.')[0]];
  }

  lemma PartsHaveNoSlash(head: seq<string>, rest: seq<string>, version: string, folders: seq<string>, file: string)
    requires forall k | 0 <= k < |head| :: '/' !in head[k]
    requires '/' !in version && '/' !in file
    requires forall k | 0 <= k < |folders| :: '/' !in folders[k]
    requires rest == ["upload", version] + folders + [file]
    ensures forall k | 0 <= k < |head + rest| :: '/' !in (head + rest)[k]
  {
    forall k | 0 <= k < |rest| ensures '/' !in rest[k] {
      if 2 <= k < |rest| - 1 { assert rest[k] == folders[k - 2]; }
    }
  }

  /** The example URL of the source's documentation,
      https://res.cloudinary.com/df5yrxjun/image/upload/v1750922836/profile-images/xuifnwovnojdrdw07hkl.jpg,
      written as its `/`-segments. */
  const DocumentedUrlSegments := ["https:", "", "res.cloudinary.com", "df5yrxjun", "image",
    "upload", "v1750922836", "profile-images", "xuifnwovnojdrdw07hkl.jpg"]

  /** The documented example: its public id is `profile-images/xuifnwovnojdrdw07hkl`. */
  lemma DocumentedExample()
    ensures PublicId(Join(DocumentedUrlSegments, '/')) == Some("profile-images/xuifnwovnojdrdw07hkl")
  {
    var stem := Split("xuifnwovnojdrdw07hkl.jpg", '.')[0];
    DocumentedShape();
    DocumentedFileStem();
    assert ["profile-images"] + [stem] == ["profile-images", "xuifnwovnojdrdw07hkl"];
    DocumentedPublicIdText();
  }

  lemma DocumentedShape()
    ensures PublicId(Join(DocumentedUrlSegments, '/'))
      == Some(Join(["profile-images"] + [Split("xuifnwovnojdrdw07hkl.jpg", '.')[0]], '/'))
  {
    var file := "xuifnwovnojdrdw07hkl.jpg";
    var head := ["https:", "", "res.cloudinary.com", "df5yrxjun", "image"];
    assert DocumentedUrlSegments == head + ["upload", "v1750922836"] + ["profile-images"] + [file];
    DocumentedUrlIsOnCloudinary();
    DocumentedSegmentsAreClean(head, file);
    CloudinaryUrlShape(head, "v1750922836", ["profile-images"], file);
  }

  lemma DocumentedSegmentsAreClean(head: seq<string>, file: string)
    requires head == ["https:", "", "res.cloudinary.com", "df5yrxjun", "image"]
    requires file == "xuifnwovnojdrdw07hkl.jpg"
    ensures forall k | 0 <= k < |head| :: '/' !in head[k] && !IsUploadSegment(head[k])
    ensures '/' !in "v1750922836" && '/' !in file && '/' !in "profile-images"
  {
  }

  lemma DocumentedUrlIsOnCloudinary()
    ensures Contains(Join(DocumentedUrlSegments, '/'), CloudinaryHost)
  {
    ContainsInside("res.", CloudinaryHost, "");
    assert "res." + CloudinaryHost + "" == DocumentedUrlSegments[2];
    ContainsInJoin(DocumentedUrlSegments, '/', 2, CloudinaryHost);
  }

  lemma DocumentedFileStem()
    ensures Split("xuifnwovnojdrdw07hkl.jpg", '.')[0] == "xuifnwovnojdrdw07hkl"
  {
    SplitAfterPiece("xuifnwovnojdrdw07hkl", '.', "jpg");
    assert "xuifnwovnojdrdw07hkl.jpg" == "xuifnwovnojdrdw07hkl" + ['.'] + "jpg";
  }

  lemma DocumentedPublicIdText()
    ensures Join(["profile-images", "xuifnwovnojdrdw07hkl"], '/') == "profile-images/xuifnwovnojdrdw07hkl"
  {
    JoinCons("profile-images", ["xuifnwovnojdrdw07hkl"], '/');
  }

  /** The asset `deleteFromCloudinary` destroys: none when the URL yields no
      public id or an empty one. */
  function Destroyed(url: string): (ids: set<string>)
    ensures |ids| <= 1 && "" !in ids
    ensures forall id | id in ids :: PublicId(url) == Some(id)
    ensures PublicId(url).Some? && PublicId(url).value != "" ==> ids == {PublicId(url).value}
  {
    match PublicId(url)
    case Some(id) => if id != "" then {id} else {}
    case None => {}
  }

  /** What Cloudinary reports for an upload: the URL it serves the image from and
      the public id it stored it under. */
  datatype CloudUpload = CloudUpload(secureUrl: string, publicId: string)

  /** The image storage the service writes to. */
  class ProfileImageStorage {
    /** `NODE_ENV === 'development'`. */
    const development: bool
    /** The file names in the local `uploads` folder. */
    var uploads: set<string>
    /** The public ids of the images stored on Cloudinary. */
    var assets: set<string>

    constructor(development: bool, uploads: set<string>, assets: set<string>)
      ensures this.development == development && this.uploads == uploads && this.assets == assets
    {
      this.development := development;
      this.uploads := uploads;
      this.assets := assets;
    }

    /** `uploadImage`: in development, a file named by a fresh uuid and the
        original extension; otherwise the asset Cloudinary reports. */
    method UploadImage(originalName: string, uuid: string, cloud: CloudUpload) returns (url: string)
      modifies this
      ensures development ==>
        && url == LocalUploadUrl(uuid + ExtName(originalName))
        && uploads == old(uploads) + {uuid + ExtName(originalName)} && assets == old(assets)
      ensures !development ==>
        url == cloud.secureUrl && assets == old(assets) + {cloud.publicId} && uploads == old(uploads)
    {
      if development {
        var ext := ExtName(originalName);
        var safeFileName := uuid + ext;
        uploads := uploads + {safeFileName};
        url := BaseUrl + "/uploads/" + safeFileName;
      } else {
        assets := assets + {cloud.publicId};
        url := cloud.secureUrl;
      }
    }

    /** `deleteImage`: nothing for an empty URL; otherwise the local file or the
        Cloudinary asset the URL names. */
    method DeleteImage(imageUrl: string)
      modifies this
      ensures imageUrl == "" ==> uploads == old(uploads) && assets == old(assets)
      ensures imageUrl != "" && development ==>
        && uploads == old(uploads) - (if LocalFileName(imageUrl).Some? then {LocalFileName(imageUrl).value} else {})
        && assets == old(assets)
      ensures imageUrl != "" && !development ==>
        && assets == old(assets) - Destroyed(imageUrl)
        && uploads == old(uploads)
    {
      if imageUrl == "" {
        return;
      }
      if development {
        DeleteFromLocal(imageUrl);
      } else {
        DeleteFromCloudinary(imageUrl);
      }
    }

    /** `deleteFromLocal`: removes the file named by the last URL segment, if any. */
    method DeleteFromLocal(imageUrl: string)
      modifies this
      ensures uploads == old(uploads) - (if LocalFileName(imageUrl).Some? then {LocalFileName(imageUrl).value} else {})
      ensures assets == old(assets)
    {
      var urlParts := Split(imageUrl, '/');
      var fileName := urlParts[|urlParts| - 1];
      if fileName != "" {
        if fileName in uploads {
          uploads := uploads - {fileName};
        }
      }
    }

    /** `deleteFromCloudinary`: destroys the asset whose public id the URL holds,
        unless that id is missing or empty. */
    method DeleteFromCloudinary(imageUrl: string)
      modifies this
      ensures assets == old(assets) - Destroyed(imageUrl)
      ensures uploads == old(uploads)
    {
      var publicId := PublicId(imageUrl);
      if publicId.Some? && publicId.value != "" {
        assets := assets - {publicId.value};
      }
    }
  }
}
