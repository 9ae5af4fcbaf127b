/** Upload helpers of the common utilities: MIME-type whitelists for multer's
    file filters, public URLs of stored files, and path normalisation. */
module FileUploadUtil {
  import opened Common

  const ImageTypes: seq<string> := ["image/jpeg", "image/png", "image/webp", "image/gif"]
  const VideoTypes: seq<string> := ["video/mp4", "video/mpeg", "video/quicktime", "video/x-msvideo"]

  /** The rejection message of the image filter, with the whitelist joined by ", ". */
  function ImageMessage(): string
  {
    "Only image files are allowed. Supported: " + Join(ImageTypes, ", ")
  }

  function VideoMessage(): string
  {
    "Only video files are allowed. Supported: " + Join(VideoTypes, ", ")
  }

  const MediaMessage: string := "Only image/video files are allowed"

  /** `imageFileFilter`: exactly the whitelisted image MIME types pass. */
  function ImageFileFilter(mimetype: string): (v: Verdict)
    ensures v.Reject? ==> v.error.BadRequest?
  {
    if mimetype in ImageTypes then Accept else Reject(BadRequest(ImageMessage()))
  }

  /** `videoFileFilter`: exactly the whitelisted video MIME types pass. */
  function VideoFileFilter(mimetype: string): (v: Verdict)
    ensures v.Reject? ==> v.error.BadRequest?
  {
    if mimetype in VideoTypes then Accept else Reject(BadRequest(VideoMessage()))
  }

  /** `imageOrVideoFileFilter`: the two whitelists concatenated. */
  function ImageOrVideoFileFilter(mimetype: string): (v: Verdict)
    ensures v.Reject? ==> v.error == BadRequest(MediaMessage)
  {
    if mimetype in ImageTypes + VideoTypes then Accept else Reject(BadRequest(MediaMessage))
  }

  /** Joining four strings puts the separator between neighbours. */
  lemma JoinFour(a: string, b: string, c: string, d: string, sep: string)
    ensures Join([a, b, c, d], sep) == a + sep + b + sep + c + sep + d
  {
    assert [a, b, c, d][1..] == [b, c, d];
    assert [b, c, d][1..] == [c, d];
    assert [c, d][1..] == [d];
    assert Join([c, d], sep) == c + sep + d;
    assert Join([b, c, d], sep) == b + sep + (c + sep + d);
    assert Join([a, b, c, d], sep) == a + sep + (b + sep + (c + sep + d));
  }

  /** The image filter accepts the four listed types and nothing else. */
  lemma ImageFilterAcceptsExactly(mimetype: string)
    ensures ImageFileFilter(mimetype).Accept? <==>
      mimetype == "image/jpeg" || mimetype == "image/png" || mimetype == "image/webp" || mimetype == "image/gif"
    ensures ImageFileFilter(mimetype).Reject? ==>
      ImageFileFilter(mimetype).error ==
        BadRequest("Only image files are allowed. Supported: "
          + "image/jpeg" + ", " + "image/png" + ", " + "image/webp" + ", " + "image/gif")
  {
    JoinFour("image/jpeg", "image/png", "image/webp", "image/gif", ", ");
  }

  /** The video filter accepts the four listed types and nothing else. */
  lemma VideoFilterAcceptsExactly(mimetype: string)
    ensures VideoFileFilter(mimetype).Accept? <==>
      mimetype == "video/mp4" || mimetype == "video/mpeg" || mimetype == "video/quicktime" || mimetype == "video/x-msvideo"
    ensures VideoFileFilter(mimetype).Reject? ==>
      VideoFileFilter(mimetype).error ==
        BadRequest("Only video files are allowed. Supported: "
          + "video/mp4" + ", " + "video/mpeg" + ", " + "video/quicktime" + ", " + "video/x-msvideo")
  {
    JoinFour("video/mp4", "video/mpeg", "video/quicktime", "video/x-msvideo", ", ");
  }

  /** The combined filter accepts exactly what one of the two filters accepts. */
  lemma ImageOrVideoIffEither(mimetype: string)
    ensures ImageOrVideoFileFilter(mimetype).Accept? <==>
      ImageFileFilter(mimetype).Accept? || VideoFileFilter(mimetype).Accept?
  {
    assert mimetype in ImageTypes + VideoTypes <==> mimetype in ImageTypes || mimetype in VideoTypes;
  }

  /** No MIME type is on both lists; every image type starts "image/", every video type "video/". */
  lemma WhitelistsDisjoint(mimetype: string)
    ensures !(ImageFileFilter(mimetype).Accept? && VideoFileFilter(mimetype).Accept?)
    ensures ImageFileFilter(mimetype).Accept? ==> "image/" <= mimetype
    ensures VideoFileFilter(mimetype).Accept? ==> "video/" <= mimetype
  {
  }

  /** MIME types are compared exactly: an upper-case spelling is refused. */
  lemma MimeComparisonIsCaseSensitive()
    ensures ImageFileFilter("IMAGE/PNG").Reject? && ImageOrVideoFileFilter("Video/MP4").Reject?
  {
  }

  /** `getFileUrl`: the path `/<folder>/<filename>`. */
  function GetFileUrl(filename: string, folder: string): (url: string)
    ensures |url| == |folder| + |filename| + 2 && url[0] == '/'
  {
    "/" + folder + "/" + filename
  }

  /** The URL's '/'-separated segments are an empty root, the folder's segments, then the filename's. */
  lemma FileUrlSegments(filename: string, folder: string)
    ensures Split(GetFileUrl(filename, folder), '/') == [""] + Split(folder, '/') + Split(filename, '/')
  {
    var tail := folder + "/" + filename;
    assert tail == folder + ['/'] + filename;
    SplitConcat(folder, filename, '/');
    assert GetFileUrl(filename, folder) == "" + ['/'] + tail;
    SplitConcat("", tail, '/');
    assert Split("", '/') == [""];
    Associate([""], Split(folder, '/'), Split(filename, '/'));
  }

  /** A filename and folder without '/' are recovered from the URL. */
  lemma FileUrlRecoversParts(filename: string, folder: string)
    requires '/' !in filename && '/' !in folder
    ensures Split(GetFileUrl(filename, folder), '/') == ["", folder, filename]
  {
    FileUrlSegments(filename, folder);
    SplitNoSeparator(filename, '/');
    SplitNoSeparator(folder, '/');
  }

  /** `filePath.replace(/\\/g, '/')`. */
  function NormalizeFilePath(path: string): (r: string)
    ensures |r| == |path|
    ensures forall i :: 0 <= i < |path| ==> r[i] == (if path[i] == '\\' then '/' else path[i])
  {
    if path == [] then []
    else [if path[0] == '\\' then '/' else path[0]] + NormalizeFilePath(path[1..])
  }

  /** Every backslash becomes '/', nothing else changes, and none is left. */
  lemma NormalizeReplacesOnlyBackslashes(path: string)
    ensures '\\' !in NormalizeFilePath(path)
    ensures forall i :: 0 <= i < |path| && path[i] != '\\' ==> NormalizeFilePath(path)[i] == path[i]
    ensures '\\' !in path ==> NormalizeFilePath(path) == path
  {
    var r := NormalizeFilePath(path);
    forall i | 0 <= i < |r| ensures r[i] != '\\' {
    }
  }

  /** Normalising twice is normalising once. */
  lemma NormalizeIdempotent(path: string)
    ensures NormalizeFilePath(NormalizeFilePath(path)) == NormalizeFilePath(path)
  {
    NormalizeReplacesOnlyBackslashes(path);
    NormalizeReplacesOnlyBackslashes(NormalizeFilePath(path));
  }
}
