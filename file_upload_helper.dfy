/** Upload helpers used by the controllers: multer file filters that test a
    file's extension against a regular expression and its MIME type against
    a prefix, and the generated name of a stored file. */
module FileUploadHelper {
  import opened Common

  // ---------------------------------------------------------------------------
  // POSIX `path.extname`

  /** The path without its trailing '/' characters. */
  function TrimSlashes(p: string): (r: string)
    ensures r <= p
    ensures r == [] || r[|r| - 1] != '/'
    ensures p == [] || p[|p| - 1] != '/' ==> r == p
  {
    if p != [] && p[|p| - 1] == '/' then TrimSlashes(p[..|p| - 1]) else p
  }

  /** The part after the last '/'. */
  function LastSegment(p: string): (r: string)
    ensures '/' !in r
    ensures |r| <= |p| && r == p[|p| - |r|..]
    ensures '/' !in p ==> r == p
  {
    if p == [] || p[|p| - 1] == '/' then []
    else LastSegment(p[..|p| - 1]) + [p[|p| - 1]]
  }

  /** The index of the last `ch` in `s`, or -1. */
  function LastIndex(s: string, ch: char): (r: int)
    ensures -1 <= r < |s|
    ensures r >= 0 ==> s[r] == ch
    ensures forall j :: r < j < |s| ==> s[j] != ch
  {
    if s == [] then -1
    else if s[|s| - 1] == ch then |s| - 1
    else LastIndex(s[..|s| - 1], ch)
  }

  /** The extension of one path segment: from its last '.', unless that dot
      starts the segment or the segment is "..". */
  function SegmentExtension(b: string): (e: string)
    ensures e == [] || (e[0] == '.' && '.' !in e[1..])
    ensures '/' in e ==> '/' in b
  {
    var d := LastIndex(b, '.');
    if d <= 0 || b == ".." then ""
    else
      assert forall j :: 0 <= j < |b[d..]| ==> b[d..][j] == b[d + j];
      b[d..]
  }

  /** `extname(path)`: trailing slashes are ignored, then the last segment's
      extension, which is empty or a dot followed by neither dot nor '/'. */
  function Extname(path: string): (e: string)
    ensures e == [] || (e[0] == '.' && '.' !in e[1..] && '/' !in e)
  {
    SegmentExtension(LastSegment(TrimSlashes(path)))
  }

  lemma LastIndexAfter(x: string, ch: char, y: string)
    requires ch !in y
    ensures LastIndex(x + [ch] + y, ch) == |x|
  {
    var s := x + [ch] + y;
    var r := LastIndex(s, ch);
    assert s[|x|] == ch;
    assert r >= |x|;
  }

  /** "x.c" has no '/' when neither part has one. */
  lemma NameHasNoSlash(x: string, c: string)
    requires '/' !in x && '/' !in c
    ensures '/' !in x + "." + c
  {
    var s := x + "." + c;
    forall j | 0 <= j < |s| ensures s[j] != '/' {
      if j < |x| { assert s[j] == x[j]; }
      else if j > |x| { assert s[j] == c[j - |x| - 1]; }
    }
  }

  /** A non-empty path without '/' is its own last segment. */
  lemma PlainName(s: string)
    requires s != [] && '/' !in s
    ensures Extname(s) == SegmentExtension(s)
  {
    assert s[|s| - 1] != '/';
    assert TrimSlashes(s) == s;
    assert LastSegment(s) == s;
  }

  /** The extension of the segment "x.c" is ".c". */
  lemma SegmentExtensionOfName(x: string, c: string)
    requires x != [] && c != [] && '.' !in c
    ensures SegmentExtension(x + "." + c) == "." + c
  {
    var s := x + "." + c;
    assert s == x + ['.'] + c;
    LastIndexAfter(x, '.', c);
    assert |s| >= 2 && s[|x|..] == "." + c;
    assert |s| > 2;
  }

  /** A name ending in ".c", with no '/' anywhere, has the extension ".c". */
  lemma ExtnameOfName(x: string, c: string)
    requires x != [] && '/' !in x
    requires c != [] && '.' !in c && '/' !in c
    ensures Extname(x + "." + c) == "." + c
  {
    NameHasNoSlash(x, c);
    PlainName(x + "." + c);
    SegmentExtensionOfName(x, c);
  }

  /** The lower-cased extension, without its dot, of a name ending in ".c". */
  lemma ExtOfName(x: string, c: string)
    requires x != [] && '/' !in x
    requires c != [] && '.' !in c && '/' !in c
    ensures Ext(x + "." + c) == Lower(c)
  {
    ExtnameOfName(x, c);
    var e := Lower("." + c);
    assert e[1..] == Lower(c) by {
      forall i | 0 <= i < |c| ensures e[1..][i] == Lower(c)[i] {
        assert ("." + c)[i + 1] == c[i];
      }
    }
  }

  /** `Lower` character by character. */
  lemma LowerIs(s: string, t: string)
    requires |s| == |t| && forall i :: 0 <= i < |s| ==> LowerChar(s[i]) == t[i]
    ensures Lower(s) == t
  {
  }

  /** A name without '.' has no extension. */
  lemma NoDotNoExtension(path: string)
    requires '.' !in path
    ensures Extname(path) == ""
  {
    var t := TrimSlashes(path);
    var b := LastSegment(t);
    assert '.' !in t by {
      forall j | 0 <= j < |t| ensures t[j] != '.' { assert t[j] == path[j]; }
    }
    assert '.' !in b by {
      forall j | 0 <= j < |b| ensures b[j] != '.' { assert b[j] == t[|t| - |b| + j]; }
    }
  }

  // ---------------------------------------------------------------------------
  // File filters

  const ImageWords: seq<string> := ["jpeg", "jpg", "png", "gif", "webp"]
  const VideoWords: seq<string> := ["mp4", "avi", "mov", "wmv", "flv", "webm"]

  const MediaMessage: string :=
    "Invalid file type. Only images (jpeg, jpg, png, gif, webp) and videos (mp4, avi, mov, wmv, flv, webm) are allowed."
  const ImageMessage: string := "Invalid file type. Only images (jpeg, jpg, png, gif, webp) are allowed."

  /** `extname(originalname).toLowerCase().slice(1)`. */
  function Ext(originalname: string): string
  {
    var e := Lower(Extname(originalname));
    if e == [] then [] else e[1..]
  }

  /** An unanchored alternation such as `/jpeg|jpg|png/` matches some alternative anywhere. */
  predicate MatchesAny(s: string, words: seq<string>)
  {
    exists i :: 0 <= i < |words| && Contains(s, words[i])
  }

  predicate IsImage(originalname: string, mimetype: string)
  {
    MatchesAny(Ext(originalname), ImageWords) && "image/" <= mimetype
  }

  predicate IsVideo(originalname: string, mimetype: string)
  {
    MatchesAny(Ext(originalname), VideoWords) && "video/" <= mimetype
  }

  /** `mediaFileFilter`. */
  function MediaFileFilter(originalname: string, mimetype: string): (v: Verdict)
    ensures v.Reject? ==> v.error == BadRequest(MediaMessage)
  {
    if IsImage(originalname, mimetype) || IsVideo(originalname, mimetype) then Accept
    else Reject(BadRequest(MediaMessage))
  }

  /** `imageFileFilter` of the helper. */
  function ImageFileFilter(originalname: string, mimetype: string): (v: Verdict)
    ensures v.Reject? ==> v.error == BadRequest(ImageMessage)
  {
    if IsImage(originalname, mimetype) then Accept else Reject(BadRequest(ImageMessage))
  }

  /** The MIME prefixes exclude each other. */
  lemma PrefixesExclusive(mimetype: string)
    ensures !("image/" <= mimetype && "video/" <= mimetype)
  {
    assert "image/" <= mimetype ==> mimetype[0] == 'i';
    assert "video/" <= mimetype ==> mimetype[0] == 'v';
  }

  /** The image filter accepts exactly the image half of the media filter. */
  lemma ImageFilterIsImageHalf(originalname: string, mimetype: string)
    ensures ImageFileFilter(originalname, mimetype).Accept? ==> MediaFileFilter(originalname, mimetype).Accept?
    ensures MediaFileFilter(originalname, mimetype).Accept? && "image/" <= mimetype ==>
      ImageFileFilter(originalname, mimetype).Accept?
    ensures ImageFileFilter(originalname, mimetype).Accept? <==>
      MatchesAny(Ext(originalname), ImageWords) && "image/" <= mimetype
  {
    PrefixesExclusive(mimetype);
  }

  /** An image extension sent with a video type is refused, and the reverse. */
  lemma MismatchRejected(originalname: string, mimetype: string)
    ensures (MatchesAny(Ext(originalname), ImageWords) && !MatchesAny(Ext(originalname), VideoWords)
             && "video/" <= mimetype) ==> MediaFileFilter(originalname, mimetype).Reject?
    ensures (MatchesAny(Ext(originalname), VideoWords) && !MatchesAny(Ext(originalname), ImageWords)
             && "image/" <= mimetype) ==> MediaFileFilter(originalname, mimetype).Reject?
  {
    PrefixesExclusive(mimetype);
  }

  /** A name "base.c" whose lower-cased extension `c` contains an image word passes both filters with an image type. */
  lemma ImageNamePasses(base: string, c: string, subtype: string, k: int)
    requires base != [] && '/' !in base
    requires c != [] && '.' !in c && '/' !in c
    requires 0 <= k < |ImageWords| && Contains(Lower(c), ImageWords[k])
    ensures ImageFileFilter(base + "." + c, "image/" + subtype).Accept?
    ensures MediaFileFilter(base + "." + c, "image/" + subtype).Accept?
  {
    ExtOfName(base, c);
    assert "image/" <= "image/" + subtype;
    assert IsImage(base + "." + c, "image/" + subtype);
  }

  /** The extension test is a substring test: ".pngx" passes as an image. */
  lemma UnanchoredExtensionPasses(base: string, subtype: string)
    requires base != [] && '/' !in base
    ensures ImageFileFilter(base + "." + "pngx", "image/" + subtype).Accept?
    ensures MediaFileFilter(base + "." + "pngx", "image/" + subtype).Accept?
  {
    LowerIs("pngx", "pngx");
    assert Contains("pngx", ImageWords[2]) by {
      assert ImageWords[2] == "png" && "png" <= "pngx";
    }
    ImageNamePasses(base, "pngx", subtype, 2);
  }

  /** The extension is compared case-insensitively: ".PNG" passes. */
  lemma UpperCaseExtensionPasses(base: string, subtype: string)
    requires base != [] && '/' !in base
    ensures ImageFileFilter(base + "." + "PNG", "image/" + subtype).Accept?
  {
    LowerIs("PNG", "png");
    assert Contains("png", ImageWords[2]) by {
      assert ImageWords[2] == "png" && "png" <= "png";
    }
    ImageNamePasses(base, "PNG", subtype, 2);
  }

  /** The MIME prefix is compared case-sensitively: "IMAGE/PNG" is refused. */
  lemma UpperCaseMimeRejected(originalname: string)
    ensures MediaFileFilter(originalname, "IMAGE/PNG").Reject?
    ensures ImageFileFilter(originalname, "IMAGE/PNG").Reject?
  {
    assert !("image/" <= "IMAGE/PNG") by { assert "IMAGE/PNG"[0] != 'i'; }
    assert !("video/" <= "IMAGE/PNG") by { assert "IMAGE/PNG"[0] != 'v'; }
  }

  /** No non-empty word occurs in the empty extension. */
  lemma NoWordInEmpty(words: seq<string>)
    requires forall i :: 0 <= i < |words| ==> words[i] != []
    ensures !MatchesAny("", words)
  {
    forall i | 0 <= i < |words| ensures !Contains("", words[i]) {
      assert !(words[i] <= "");
    }
  }

  /** Every word of the two alternations is non-empty. */
  lemma WordsNonEmpty()
    ensures forall i :: 0 <= i < |ImageWords| ==> ImageWords[i] != []
    ensures forall i :: 0 <= i < |VideoWords| ==> VideoWords[i] != []
  {
  }

  /** A name without an extension is refused, whatever its type. */
  lemma NoExtensionRejected(originalname: string, mimetype: string)
    requires '.' !in originalname
    ensures MediaFileFilter(originalname, mimetype).Reject?
  {
    NoDotNoExtension(originalname);
    WordsNonEmpty();
    NoWordInEmpty(ImageWords);
    NoWordInEmpty(VideoWords);
  }

  // ---------------------------------------------------------------------------
  // Stored file names

  const HexDigits: string := "0123456789abcdef"

  /** `n.toString(16)` for a value of `Math.round(Math.random() * 16)`, which lies in 0..16. */
  function Hex(n: int): (h: string)
    requires 0 <= n <= 16
    ensures 1 <= |h| <= 2
    ensures |h| == 2 <==> n == 16
    ensures forall i :: 0 <= i < |h| ==> h[i] in HexDigits
  {
    if n < 16 then [HexDigits[n]] else "10"
  }

  /** The sixteen random pieces joined with "". */
  function RandomName(digits: seq<int>): (r: string)
    requires forall i :: 0 <= i < |digits| ==> 0 <= digits[i] <= 16
    ensures forall i :: 0 <= i < |r| ==> r[i] in HexDigits
  {
    if digits == [] then "" else Hex(digits[0]) + RandomName(digits[1..])
  }

  /** Each piece has one or two characters, so the random part of a name is
      between 16 and 32 characters long; it is 32 when every piece rounded up to 16. */
  lemma {:induction false} RandomNameLength(digits: seq<int>)
    requires forall i :: 0 <= i < |digits| ==> 0 <= digits[i] <= 16
    ensures |digits| <= |RandomName(digits)| <= 2 * |digits|
    ensures |RandomName(digits)| == 2 * |digits| <==> forall i :: 0 <= i < |digits| ==> digits[i] == 16
    ensures |RandomName(digits)| == |digits| <==> forall i :: 0 <= i < |digits| ==> digits[i] < 16
  {
    if digits != [] {
      RandomNameLength(digits[1..]);
    }
  }

  /** `editFileName`: `${name}-${Date.now()}-${randomName}${extname}` with `name` the
      original name up to its first '.'; the clock and the random pieces are inputs.
      The stored name begins with that '.'-free prefix of the original name and a
      '-', continues with the time, a '-' and the random part, and ends with the
      original extension. */
  function EditFileName(originalname: string, now: int, digits: seq<int>): (stored: string)
    requires forall i :: 0 <= i < |digits| ==> 0 <= digits[i] <= 16
    ensures var prefix := Split(originalname, '.')[0];
      prefix <= originalname && '.' !in prefix
      && (|prefix| < |originalname| ==> originalname[|prefix|] == '.')
      && prefix + "-" <= stored
      && |stored| == |prefix| + 1 + |Decimal(now)| + 1 + |RandomName(digits)| + |Extname(originalname)|
      && Extname(originalname) == stored[|stored| - |Extname(originalname)|..]
      && stored[|prefix| + 1..|stored| - |Extname(originalname)|] == Decimal(now) + "-" + RandomName(digits)
  {
    SplitFirstPiece(originalname, '.');
    var prefix := Split(originalname, '.')[0];
    var ext := Extname(originalname);
    var d, rn := Decimal(now), RandomName(digits);
    Associate(prefix + "-", d + "-", rn);
    Associate(prefix + "-", d, "-");
    PartsOf(prefix + "-", d + "-" + rn, ext);
    prefix + "-" + d + "-" + rn + ext
  }

  /** The three parts of a concatenation can be read back by position. */
  lemma PartsOf(a: string, b: string, c: string)
    ensures a <= a + b + c
    ensures (a + b + c)[|a|..|a| + |b|] == b
    ensures (a + b + c)[|a| + |b|..] == c
  {
    var s := a + b + c;
    assert forall i :: 0 <= i < |b| ==> s[|a| + i] == b[i];
  }

  /** The text before the first '.' of "a.rest", when `a` has no '.'. */
  lemma FirstPieceOf(a: string, rest: string)
    requires '.' !in a
    ensures Split(a + "." + rest, '.')[0] == a
  {
    assert a + "." + rest == a + ['.'] + rest;
    SplitConcat(a, rest, '.');
    SplitNoSeparator(a, '.');
  }

  /** With two dots, everything between them is dropped: "a.b.c" is stored as "a-<time>-<random>.c". */
  lemma EditFileNameDropsMiddle(a: string, b: string, c: string, now: int, digits: seq<int>)
    requires forall i :: 0 <= i < |digits| ==> 0 <= digits[i] <= 16
    requires a != [] && '.' !in a && '/' !in a && '/' !in b
    requires c != [] && '.' !in c && '/' !in c
    ensures EditFileName(a + "." + b + "." + c, now, digits) == a + "-" + Decimal(now) + "-" + RandomName(digits) + "." + c
  {
    var ab := a + "." + b;
    FirstPieceOf(a, b + "." + c);
    assert ab + "." + c == a + "." + (b + "." + c);
    NameHasNoSlash(a, b);
    ExtnameOfName(ab, c);
    var front := a + "-" + Decimal(now) + "-" + RandomName(digits);
    assert EditFileName(ab + "." + c, now, digits) == front + ("." + c);
    Associate(front, ".", c);
  }
}
