/**
 * The conditional field validators of a newsroom article: the hero image
 * and hero video depend on the hero style, the video embed block on its
 * provider, and the social block on the article's category.
 */
module NewsroomArticle {
  import opened Wrappers
  import opened Text
  import opened Documents

  /** A custom validator's answer: `true`, or the message shown to the editor. */
  datatype Validation = Valid | Invalid(message: string)

  const HeroImageRequired: string := "Required when Hero Style is Image"
  const HeroVideoRequired: string := "Required when Hero Style is Video"
  const FileRequired: string := "File is required when provider is File"
  const UrlRequired: string := "URL is required when provider is YouTube or Vimeo"
  const PosterRequired: string := "Poster is required for video"
  const SocialRequired: string := "Required for Social category"
  const PlatformRequired: string := "Platform is required for Social"
  const CaptionLength: string := "Caption 70-200 chars required for Social"
  const PostOrMediaRequired: string := "Either Post URL or Media is required for Social"

  /** A video value (hero video or video embed block); assets are only present or absent. */
  datatype Video = Video(provider: Option<string>, url: Option<string>, hasFile: bool, hasPoster: bool)

  /** The social block; the media image is only present or absent. */
  datatype Social = Social(platform: Option<string>, postUrl: Option<string>, caption: Option<string>, hasMedia: bool)

  // ---------------------------------------------------------------- hero image

  /** The hero image is required when the hero style is `image`. */
  function ValidateHeroImage(heroStyle: Option<string>, hasImage: bool): (r: Validation)
    ensures r.Invalid? <==> heroStyle == Some("image") && !hasImage
    ensures r.Invalid? ==> r.message == HeroImageRequired
  {
    if heroStyle == Some("image") && !hasImage then Invalid(HeroImageRequired) else Valid
  }

  // ---------------------------------------------------------------- video

  /** A `file` video needs a file; any other provider, unset included, needs a URL. */
  predicate HasSource(v: Video) {
    if v.provider == Some("file") then v.hasFile else Truthy(v.url)
  }

  /** The three ordered checks shared by the hero video and the video embed block. */
  function CheckVideo(v: Video): (r: Validation)
    ensures r.Valid? <==> HasSource(v) && v.hasPoster
  {
    if v.provider == Some("file") && !v.hasFile then Invalid(FileRequired)
    else if v.provider != Some("file") && !Truthy(v.url) then Invalid(UrlRequired)
    else if !v.hasPoster then Invalid(PosterRequired)
    else Valid
  }

  /** Every check a video value fails, in the order the validator runs them. */
  function VideoProblems(v: Video): (ps: seq<string>)
    ensures |ps| <= 2
  {
    (if !HasSource(v) then [if v.provider == Some("file") then FileRequired else UrlRequired] else [])
    + (if !v.hasPoster then [PosterRequired] else [])
  }

  /** The video checks report the first problem, and pass exactly when there is none. */
  lemma CheckVideoReportsFirstProblem(v: Video)
    ensures CheckVideo(v).Valid? <==> VideoProblems(v) == []
    ensures CheckVideo(v).Invalid? ==> CheckVideo(v).message == VideoProblems(v)[0]
  {
  }

  /** The hero video: only checked when the hero style is `video`, and then required. */
  function ValidateHeroVideo(heroStyle: Option<string>, value: Option<Video>): (r: Validation)
    ensures heroStyle != Some("video") ==> r.Valid?
    ensures r.Valid? <==> heroStyle != Some("video") || (value.Some? && HasSource(value.value) && value.value.hasPoster)
    ensures heroStyle == Some("video") && value.None? ==> r == Invalid(HeroVideoRequired)
  {
    if heroStyle == Some("video") then
      match value
      case None => Invalid(HeroVideoRequired)
      case Some(v) => CheckVideo(v)
    else Valid
  }

  /** A video embed block in the body: valid when absent, otherwise the video checks. */
  function ValidateVideoEmbed(value: Option<Video>): (r: Validation)
    ensures value.None? ==> r.Valid?
    ensures r.Valid? <==> value.None? || (HasSource(value.value) && value.value.hasPoster)
  {
    match value
    case None => Valid
    case Some(v) => CheckVideo(v)
  }

  /** A present embed block and a present hero video under the `video` style get the same answer. */
  lemma EmbedAgreesWithHeroVideo(v: Video)
    ensures ValidateVideoEmbed(Some(v)) == ValidateHeroVideo(Some("video"), Some(v))
  {
  }

  // ---------------------------------------------------------------- social

  /** `String.prototype.length`: UTF-16 code units, two for a character beyond the Basic Multilingual Plane. */
  function Utf16Length(s: string): (n: nat)
    ensures |s| <= n <= 2 * |s|
  {
    if s == [] then 0 else (if s[0] as int > 0xFFFF then 2 else 1) + Utf16Length(s[1..])
  }

  /** A caption without astral characters is as long in UTF-16 as it has characters. */
  lemma {:induction false} Utf16LengthBmp(s: string)
    requires forall i :: 0 <= i < |s| ==> s[i] as int <= 0xFFFF
    ensures Utf16Length(s) == |s|
  {
    if s != [] {
      assert forall i :: 0 <= i < |s[1..]| ==> s[1..][i] == s[i + 1];
      Utf16LengthBmp(s[1..]);
    }
  }

  predicate CaptionFits(caption: Option<string>) {
    Truthy(caption) && 70 <= Utf16Length(caption.value) <= 200
  }

  /** The slug of the category the article refers to, as the category lookup returns it. */
  function CategorySlug(s: Store, categoryRef: Option<string>): Option<string> {
    if !Truthy(categoryRef) then None
    else match Lookup(s, categoryRef.value)
      case None => None
      case Some(c) => c.slug
  }

  /** Every requirement the social block fails in the Social category, in the validator's order. */
  function SocialProblems(value: Option<Social>): seq<string> {
    match value
    case None => [SocialRequired]
    case Some(v) =>
      (if !Truthy(v.platform) then [PlatformRequired] else [])
      + (if !CaptionFits(v.caption) then [CaptionLength] else [])
      + (if !Truthy(v.postUrl) && !v.hasMedia then [PostOrMediaRequired] else [])
  }

  /**
   * The social block: only checked when the article's category ref points
   * at the category whose slug is `social`; there it needs a platform, a
   * caption of 70 to 200 characters, and a post URL or a media image.
   */
  function ValidateSocial(s: Store, categoryRef: Option<string>, value: Option<Social>): (r: Validation)
    ensures !Truthy(categoryRef) ==> r.Valid?
    ensures r.Valid? <==>
      CategorySlug(s, categoryRef) != Some("social")
      || (value.Some? && Truthy(value.value.platform) && CaptionFits(value.value.caption)
          && (Truthy(value.value.postUrl) || value.value.hasMedia))
  {
    if !Truthy(categoryRef) then Valid
    else
      var slug := match Lookup(s, categoryRef.value) case None => None case Some(c) => c.slug;
      if slug != Some("social") then Valid
      else match value
        case None => Invalid(SocialRequired)
        case Some(v) =>
          if !Truthy(v.platform) then Invalid(PlatformRequired)
          else if !Truthy(v.caption) || Utf16Length(v.caption.value) < 70 || Utf16Length(v.caption.value) > 200 then Invalid(CaptionLength)
          else if !Truthy(v.postUrl) && !v.hasMedia then Invalid(PostOrMediaRequired)
          else Valid
  }

  /** In the Social category the validator reports the first failing requirement, and passes when none fails. */
  lemma SocialReportsFirstProblem(s: Store, categoryRef: Option<string>, value: Option<Social>)
    requires CategorySlug(s, categoryRef) == Some("social")
    ensures ValidateSocial(s, categoryRef, value).Valid? <==> SocialProblems(value) == []
    ensures ValidateSocial(s, categoryRef, value).Invalid? ==>
      ValidateSocial(s, categoryRef, value).message == SocialProblems(value)[0]
  {
  }
}
