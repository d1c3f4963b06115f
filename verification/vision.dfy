/**
 * The image helpers of the vision handler: which links and attachments count
 * as images, the size limit on downloaded image data, and the text block that
 * tells the language model what images a message carried.
 *
 * Decoding, resizing and base64-encoding the image are the `encode` parameter
 * of `ProcessImage`; downloads and the vision API calls are not part of this
 * model.
 */
module Vision {
  import opened Wrappers
  import Text

  // ------------------------------------------------------------------ recognising images

  /** The extensions of `SUPPORTED_IMAGE_FORMATS`, which `is_image_url` lists again. */
  function SupportedImageFormats(): set<string> {
    {".png", ".jpg", ".jpeg", ".gif", ".webp", ".bmp"}
  }

  /** The hosts whose links are taken for images whatever their path. */
  function ImageHosts(): seq<string> {
    ["imgur.com", "i.imgur.com", "gyazo.com", "discordapp.com", "cdn.discordapp.com"]
  }

  predicate IsImageHost(urlLower: string) {
    exists d :: d in ImageHosts() && Text.Contains(urlLower, d)
  }

  /** `is_image_url`: the lower-cased link ends in an image extension or names an image host. */
  predicate IsImageUrl(url: string) {
    (exists ext :: ext in SupportedImageFormats() && Text.EndsWith(Text.Lower(url), ext))
    || IsImageHost(Text.Lower(url))
  }

  /** The position of the last `c` in `s`, or -1. */
  function LastIndex(s: string, c: char): (r: int)
    ensures -1 <= r < |s|
    ensures r >= 0 ==> s[r] == c
    ensures forall k :: r < k < |s| ==> s[k] != c
  {
    if s == [] then -1
    else if s[|s| - 1] == c then |s| - 1
    else LastIndex(s[..|s| - 1], c)
  }

  /** Some character of `s[from..upto]` is not a dot. */
  predicate NamedBefore(s: string, from: int, upto: int)
    requires 0 <= from && upto <= |s|
  {
    exists k :: from <= k < upto && s[k] != '.'
  }

  /**
   * `os.path.splitext(p)[1]` on POSIX paths: from the last dot on, when that
   * dot comes after the last slash and something other than dots precedes it
   * within the file name; otherwise empty.
   */
  function Extension(p: string): string {
    if LastIndex(p, '.') > LastIndex(p, '/')
       && NamedBefore(p, LastIndex(p, '/') + 1, LastIndex(p, '.'))
    then p[LastIndex(p, '.')..]
    else ""
  }

  /** `is_image_attachment`, on the attachment's file name. */
  predicate IsImageAttachment(filename: string) {
    filename != [] && Text.Lower(Extension(filename)) in SupportedImageFormats()
  }

  /** A file name followed by a one-dot extension has that extension. */
  lemma ExtensionOfName(base: string, ext: string)
    requires |ext| >= 1 && ext[0] == '.' && '.' !in ext[1..] && '/' !in ext
    requires '/' !in base && exists k :: 0 <= k < |base| && base[k] != '.'
    ensures Extension(base + ext) == ext
  {
    var p := base + ext;
    assert p[|base|] == '.';
    assert forall k :: |base| < k < |p| ==> p[k] == ext[1..][k - |base| - 1];
    assert LastIndex(p, '.') == |base|;
    assert forall k :: 0 <= k < |p| ==> p[k] != '/' by {
      forall k | 0 <= k < |p|
        ensures p[k] != '/'
      {
        if k < |base| { assert p[k] == base[k]; } else { assert p[k] == ext[k - |base|]; }
      }
    }
    assert LastIndex(p, '/') == -1;
    var k :| 0 <= k < |base| && base[k] != '.';
    assert p[k] == base[k];
    assert p[|base|..] == ext;
  }

  /** A name with a supported extension, in any letter case, is an image attachment. */
  lemma ImageFileAccepted(base: string, ext: string)
    requires |ext| >= 1 && ext[0] == '.' && '.' !in ext[1..] && '/' !in ext
    requires '/' !in base && exists k :: 0 <= k < |base| && base[k] != '.'
    requires Text.Lower(ext) in SupportedImageFormats()
    ensures IsImageAttachment(base + ext)
  {
    ExtensionOfName(base, ext);
  }

  /** A dot file such as ".png" has no extension, so it is not taken for an image. */
  lemma DotFileRejected(dots: string, name: string)
    requires forall k :: 0 <= k < |dots| ==> dots[k] == '.'
    requires '.' !in name && '/' !in name
    ensures !IsImageAttachment(dots + "." + name)
  {
    var p := dots + "." + name;
    assert p[|dots|] == '.';
    assert forall k :: |dots| < k < |p| ==> p[k] == name[k - |dots| - 1];
    assert LastIndex(p, '.') == |dots|;
    forall k | 0 <= k < |dots|
      ensures p[k] == '.'
    {
      assert p[k] == dots[k];
    }
    forall k | 0 <= k < |p|
      ensures p[k] != '/'
    {
      if k < |dots| { assert p[k] == dots[k]; }
      else if k > |dots| { assert p[k] == name[k - |dots| - 1]; }
    }
    assert LastIndex(p, '/') == -1;
    assert !NamedBefore(p, LastIndex(p, '/') + 1, LastIndex(p, '.'));
    assert Extension(p) == "";
    assert Text.Lower("") == "";
  }

  /** An image attachment's name would also pass the link test. */
  lemma AttachmentNameIsImageUrl(filename: string)
    requires IsImageAttachment(filename)
    ensures IsImageUrl(filename)
  {
    var dot := LastIndex(filename, '.');
    var ext := Extension(filename);
    assert ext == filename[dot..];
    var lowered := Text.Lower(filename);
    assert lowered[dot..] == Text.Lower(ext);
    assert Text.EndsWith(lowered, Text.Lower(ext));
  }

  /** The link test does not depend on letter case. */
  lemma ImageUrlIgnoresCase(url: string)
    ensures IsImageUrl(Text.Lower(url)) == IsImageUrl(url)
  {
    Text.LowerIdempotent(url);
  }

  /** "i.imgur.com" and "cdn.discordapp.com" add nothing: three hosts decide. */
  lemma ThreeHostsDecide(urlLower: string)
    ensures IsImageHost(urlLower)
        <==> Text.Contains(urlLower, "imgur.com") || Text.Contains(urlLower, "gyazo.com")
             || Text.Contains(urlLower, "discordapp.com")
  {
    if Text.Contains(urlLower, "i.imgur.com") {
      assert "i.imgur.com" == "i." + "imgur.com";
      Text.ContainsSuffix("i.", "imgur.com");
      Text.ContainsTrans(urlLower, "i.imgur.com", "imgur.com");
    }
    if Text.Contains(urlLower, "cdn.discordapp.com") {
      assert "cdn.discordapp.com" == "cdn." + "discordapp.com";
      Text.ContainsSuffix("cdn.", "discordapp.com");
      Text.ContainsTrans(urlLower, "cdn.discordapp.com", "discordapp.com");
    }
    assert ImageHosts()[0] == "imgur.com";
    assert ImageHosts()[2] == "gyazo.com";
    assert ImageHosts()[3] == "discordapp.com";
  }

  // ------------------------------------------------------------------ image data

  const MaxImageSizeMb: nat := 10

  /** Image data larger than `MAX_IMAGE_SIZE_MB` mebibytes is refused. */
  predicate SizeAccepted(byteCount: nat) {
    !(byteCount > MaxImageSizeMb * 1024 * 1024)
  }

  /** The limit is 10485760 bytes, inclusive. */
  lemma SizeLimit(byteCount: nat)
    ensures SizeAccepted(byteCount) <==> byteCount <= 10485760
  {
  }

  /**
   * `process_image`: too large data gives nothing; otherwise `encode` stands
   * for the decoding, resizing and base64 encoding, `None` when they fail.
   */
  function ProcessImage(data: seq<bv8>, encode: seq<bv8> -> Option<string>): (r: Option<string>)
    ensures |data| > 10485760 ==> r == None
    ensures |data| <= 10485760 ==> r == encode(data)
  {
    if !SizeAccepted(|data|) then None else encode(data)
  }

  // ------------------------------------------------------------------ prompt text

  /** One image of a message: where it came from, and its file name or link if known. */
  datatype ImageRef = ImageRef(source: string, filename: Option<string>, url: Option<string>)

  /** `img.get('filename') or img.get('url', 'unknown')` */
  function SourceInfo(img: ImageRef): (r: string)
    ensures img.filename.Some? && img.filename.value != "" ==> r == img.filename.value
    ensures !(img.filename.Some? && img.filename.value != "") && img.url.Some? ==> r == img.url.value
    ensures !(img.filename.Some? && img.filename.value != "") && img.url.None? ==> r == "unknown"
  {
    if img.filename.Some? && img.filename.value != "" then img.filename.value
    else img.url.GetOr("unknown")
  }

  function ImageHeader(): string {
    "\nImages in this message:\n"
  }

  /** The lines for the `number`-th image. */
  function ImageBlock(number: int, img: ImageRef, description: string): string {
    "[Image " + Text.IntToString(number) + "] (" + img.source + ": " + SourceInfo(img) + ")\n"
    + ("Description: " + description + "\n\n")
  }

  function Min(a: nat, b: nat): nat {
    if a <= b then a else b
  }

  /** The blocks of the first `n` (image, description) pairs, numbered from 1. */
  function Blocks(images: seq<ImageRef>, descriptions: seq<string>, n: nat): string
    requires n <= |images| && n <= |descriptions|
  {
    if n == 0 then ""
    else Blocks(images, descriptions, n - 1) + ImageBlock(n, images[n - 1], descriptions[n - 1])
  }

  /** `format_image_context`: nothing without images, else the header and one block per zipped pair. */
  function ImageContext(images: seq<ImageRef>, descriptions: seq<string>): string {
    if images == [] then ""
    else ImageHeader() + Blocks(images, descriptions, Min(|images|, |descriptions|))
  }

  /** The `+=` loop of `format_image_context`. */
  method FormatImageContext(images: seq<ImageRef>, descriptions: seq<string>) returns (context: string)
    ensures context == ImageContext(images, descriptions)
    ensures context == "" <==> images == []
    ensures images != [] ==> Text.StartsWith(context, ImageHeader())
  {
    if images == [] {
      return "";
    }
    context := "\nImages in this message:\n";
    var pairs := Min(|images|, |descriptions|);
    for i := 0 to pairs
      invariant context == ImageHeader() + Blocks(images, descriptions, i)
    {
      var img := images[i];
      var line := "[Image " + Text.IntToString(i + 1) + "] (" + img.source + ": " + SourceInfo(img) + ")\n";
      var rest := "Description: " + descriptions[i] + "\n\n";
      context := context + line;
      context := context + rest;
      Text.ConcatAssoc(ImageHeader() + Blocks(images, descriptions, i), line, rest);
      Text.ConcatAssoc(ImageHeader(), Blocks(images, descriptions, i), line + rest);
    }
  }

  /** Every zipped pair appears under its own number. */
  lemma {:induction false} BlocksShowEvery(images: seq<ImageRef>, descriptions: seq<string>, n: nat, k: nat)
    requires n <= |images| && n <= |descriptions| && k < n
    ensures Text.Contains(Blocks(images, descriptions, n), ImageBlock(k + 1, images[k], descriptions[k]))
  {
    var prefix := Blocks(images, descriptions, n - 1);
    var last := ImageBlock(n, images[n - 1], descriptions[n - 1]);
    if k == n - 1 {
      Text.ContainsSuffix(prefix, last);
    } else {
      BlocksShowEvery(images, descriptions, n - 1, k);
      Text.ContainsExtend(prefix, last, ImageBlock(k + 1, images[k], descriptions[k]));
    }
  }

  /** Each image that has a description is described in the context. */
  lemma ContextShowsEveryPair(images: seq<ImageRef>, descriptions: seq<string>, k: nat)
    requires k < |images| && k < |descriptions|
    ensures Text.Contains(ImageContext(images, descriptions), ImageBlock(k + 1, images[k], descriptions[k]))
  {
    var blocks := Blocks(images, descriptions, Min(|images|, |descriptions|));
    BlocksShowEvery(images, descriptions, Min(|images|, |descriptions|), k);
    assert ImageHeader() + blocks == [] + ImageHeader() + blocks;
    Text.ContainsSuffix(ImageHeader(), blocks);
    Text.ContainsTrans(ImageHeader() + blocks, blocks, ImageBlock(k + 1, images[k], descriptions[k]));
  }

  /** Blocks read only the pairs they number. */
  lemma {:induction false} BlocksPrefix(
    images: seq<ImageRef>, descriptions: seq<string>, images': seq<ImageRef>, descriptions': seq<string>, n: nat)
    requires n <= |images| && n <= |descriptions| && n <= |images'| && n <= |descriptions'|
    requires images[..n] == images'[..n] && descriptions[..n] == descriptions'[..n]
    ensures Blocks(images, descriptions, n) == Blocks(images', descriptions', n)
  {
    if n > 0 {
      assert images[n - 1] == images[..n][n - 1];
      assert images'[n - 1] == images'[..n][n - 1];
      assert descriptions[n - 1] == descriptions[..n][n - 1];
      assert descriptions'[n - 1] == descriptions'[..n][n - 1];
      assert images[..n - 1] == images[..n][..n - 1];
      assert images'[..n - 1] == images'[..n][..n - 1];
      assert descriptions[..n - 1] == descriptions[..n][..n - 1];
      assert descriptions'[..n - 1] == descriptions'[..n][..n - 1];
      BlocksPrefix(images, descriptions, images', descriptions', n - 1);
    }
  }

  /** Images beyond the last description are left out, as `zip` drops them. */
  lemma ExtraImagesDropped(images: seq<ImageRef>, descriptions: seq<string>)
    requires 0 < |descriptions| <= |images|
    ensures ImageContext(images, descriptions) == ImageContext(images[..|descriptions|], descriptions)
  {
    var n := |descriptions|;
    assert images[..n][..n] == images[..n];
    assert descriptions[..n] == descriptions[..n];
    BlocksPrefix(images, descriptions, images[..n], descriptions, n);
  }

  /** Descriptions beyond the last image are left out too. */
  lemma ExtraDescriptionsDropped(images: seq<ImageRef>, descriptions: seq<string>)
    requires |images| <= |descriptions|
    ensures ImageContext(images, descriptions) == ImageContext(images, descriptions[..|images|])
  {
    var n := |images|;
    assert descriptions[..n][..n] == descriptions[..n];
    BlocksPrefix(images, descriptions, images, descriptions[..n], n);
  }

  /** Images but no descriptions: the header alone. */
  lemma HeaderOnlyWithoutDescriptions(images: seq<ImageRef>)
    requires images != []
    ensures ImageContext(images, []) == ImageHeader()
  {
    assert ImageHeader() + "" == ImageHeader();
  }
}
