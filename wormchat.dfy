/**
 * The path decisions of the chat widget (js/wormchat.js): the fallback video
 * and thought-bubble paths for a worm state, the choice between a .png and a
 * .jpg thought image, and the search of a JSON:API response for the video
 * file of a state. The HTTP requests become parameters: `found` says which
 * HEAD requests answered with a success status, and the media lookup receives
 * the decoded response document, or None when the request failed.
 */
module WormChat {
  import opened Wrappers
  import opened Text

  /** The worm conditions the IoT platform reports. */
  const States: seq<string> := ["dry", "wet", "hot", "cold", "hungry", "cnLow", "cnHigh", "happy"]
  const FallbackState: string := "hot"
  const WormVideoDir: string := "/sites/default/files/worm/"
  const PicturesDir: string := "/sites/default/files/pictures/"
  const PublicScheme: string := "public://"
  const PublicFilesDir: string := "/sites/default/files/"

  datatype Media = Media(video: string, thought: string)

  /** `fallbackMappingForState`: an unknown state key is replaced by "hot";
      the thought path carries no extension. */
  function FallbackMapping(stateKey: string): Media {
    var key := if stateKey in States then stateKey else FallbackState;
    Media(WormVideoDir + key + ".mp4", PicturesDir + key)
  }

  /** Both fallback paths name the same known state: the given one when it is
      known, "hot" otherwise. */
  lemma FallbackMappingNamesKnownState(stateKey: string)
    ensures var m := FallbackMapping(stateKey);
      && StartsWith(m.video, WormVideoDir) && |m.video| >= |WormVideoDir| + 4
      && m.video[|m.video| - 4..] == ".mp4"
      && StartsWith(m.thought, PicturesDir)
      && var key := m.video[|WormVideoDir|..|m.video| - 4];
      && key in States
      && m.thought[|PicturesDir|..] == key
      && (stateKey in States ==> key == stateKey)
      && (stateKey !in States ==> key == FallbackState)
  {
    var key := if stateKey in States then stateKey else FallbackState;
    var m := FallbackMapping(stateKey);
    assert m.video[..|WormVideoDir|] == WormVideoDir;
    assert m.video[|WormVideoDir|..|m.video| - 4] == key;
    assert m.video[|m.video| - 4..] == ".mp4";
    assert m.thought[..|PicturesDir|] == PicturesDir;
    assert m.thought[|PicturesDir|..] == key;
  }

  /** `resolveThoughtImagePath`: the .png path if it exists, else the .jpg
      path if that exists, else the .png path anyway. A HEAD request that
      throws counts as "does not exist". */
  function ResolveThoughtImagePath(basePath: string, found: string -> bool): (path: string)
    ensures path == basePath + ".png" || path == basePath + ".jpg"
    ensures path == basePath + ".jpg" <==> !found(basePath + ".png") && found(basePath + ".jpg")
    ensures found(path) || path == basePath + ".png"
  {
    var png := basePath + ".png";
    var jpg := basePath + ".jpg";
    assert png[|basePath| + 1] != jpg[|basePath| + 1];
    if found(png) then png
    else if found(jpg) then jpg
    else png
  }

  /** `pattern` occurs in `s` at position `j`. */
  predicate OccursAt(s: string, pattern: string, j: int) {
    0 <= j && j + |pattern| <= |s| && s[j..j + |pattern|] == pattern
  }

  /** First position at or after `from` where `pattern` occurs in `s`. */
  function IndexOf(s: string, pattern: string, from: nat): (r: Option<nat>)
    ensures r.Some? ==> from <= r.value && OccursAt(s, pattern, r.value)
    ensures r.Some? ==> forall j :: from <= j < r.value ==> !OccursAt(s, pattern, j)
    ensures r.None? ==> forall j :: from <= j ==> !OccursAt(s, pattern, j)
    decreases |s| - from
  {
    if from + |pattern| > |s| then None
    else if OccursAt(s, pattern, from) then Some(from)
    else IndexOf(s, pattern, from + 1)
  }

  /** `s.replace(pattern, replacement)` with a string pattern: only the first
      occurrence is replaced. */
  function ReplaceFirst(s: string, pattern: string, replacement: string): string {
    match IndexOf(s, pattern, 0)
    case None => s
    case Some(i) => s[..i] + replacement + s[i + |pattern|..]
  }

  /** The `public://` rewrite of the media lookup: a URL with that scheme is
      served from the public files directory, any other URL is unchanged. */
  function ToWebPath(fileUrl: string): (path: string)
    ensures StartsWith(fileUrl, PublicScheme) ==>
      path == PublicFilesDir + fileUrl[|PublicScheme|..]
    ensures !StartsWith(fileUrl, PublicScheme) ==> path == fileUrl
  {
    if StartsWith(fileUrl, PublicScheme) then
      assert OccursAt(fileUrl, PublicScheme, 0);
      ReplaceFirst(fileUrl, PublicScheme, PublicFilesDir)
    else fileUrl
  }

  /** `attributes.uri` of a file resource; an empty string stands for a
      missing or empty property (both are falsy). */
  datatype FileUri = FileUri(url: string, value: string)

  /** An entry of `included`: its `type`, `attributes.uri` and
      `attributes.url` ("" when absent). */
  datatype IncludedResource = IncludedResource(kind: string, uri: Option<FileUri>, url: string)

  /** The first node of `data`: the items of `attributes.field_video_file`,
      None for an item without `uri`. */
  datatype NodeResource = NodeResource(videoFiles: seq<Option<FileUri>>)

  datatype JsonApiDocument = JsonApiDocument(data: seq<NodeResource>, included: seq<IncludedResource>)

  /** `uri.url || uri.value` */
  function UriText(u: FileUri): string {
    if u.url != "" then u.url else u.value
  }

  predicate IsFileResource(inc: IncludedResource) {
    StartsWith(inc.kind, "file--") || StartsWith(inc.kind, "media--")
  }

  /** The video path one included entry yields, if any: its `uri` (rewritten
      when it uses `public://`), else its plain `url` (never rewritten). */
  function IncludedVideo(inc: IncludedResource): Option<string> {
    if !IsFileResource(inc) then None
    else if inc.uri.Some? && UriText(inc.uri.value) != "" then Some(ToWebPath(UriText(inc.uri.value)))
    else if inc.url != "" then Some(inc.url)
    else None
  }

  /** The loop over `included`: the first entry that yields a video. */
  function FirstIncludedVideo(incs: seq<IncludedResource>): (r: Option<string>)
    ensures r.Some? <==> exists i :: 0 <= i < |incs| && IncludedVideo(incs[i]).Some?
    ensures r.Some? ==> exists i :: 0 <= i < |incs| && r == IncludedVideo(incs[i])
                          && forall j :: 0 <= j < i ==> IncludedVideo(incs[j]).None?
    decreases |incs|
  {
    if incs == [] then None
    else if IncludedVideo(incs[0]).Some? then IncludedVideo(incs[0])
    else
      var r := FirstIncludedVideo(incs[1..]);
      assert forall i :: 0 < i < |incs| ==> incs[i] == incs[1..][i - 1];
      if r.Some? then
        var i :| 0 <= i < |incs[1..]| && r == IncludedVideo(incs[1..][i])
                 && forall j :: 0 <= j < i ==> IncludedVideo(incs[1..][j]).None?;
        assert r == IncludedVideo(incs[i + 1]);
        assert forall j :: 0 <= j < i + 1 ==> IncludedVideo(incs[j]).None?;
        r
      else r
  }

  /** The fallback on the node's own `field_video_file`: only its first item
      is looked at, and its URI is rewritten like an included one. */
  function NodeFieldVideo(node: NodeResource): Option<string> {
    if |node.videoFiles| > 0 && node.videoFiles[0].Some? && UriText(node.videoFiles[0].value) != ""
    then Some(ToWebPath(UriText(node.videoFiles[0].value)))
    else None
  }

  /** `fetchMediaForState` after the request: None when the request failed,
      when `data` is empty, or when neither `included` nor the first node
      yields a file; otherwise the first included file wins over the node's
      field. */
  function MediaForState(response: Option<JsonApiDocument>): (video: Option<string>)
    ensures response.None? ==> video.None?
    ensures response.Some? && |response.value.data| == 0 ==> video.None?
    ensures response.Some? && |response.value.data| > 0
            && (exists i :: 0 <= i < |response.value.included| && IncludedVideo(response.value.included[i]).Some?)
            ==> exists i :: 0 <= i < |response.value.included| && video == IncludedVideo(response.value.included[i])
                  && forall j :: 0 <= j < i ==> IncludedVideo(response.value.included[j]).None?
    ensures response.Some? && |response.value.data| > 0
            && (forall i :: 0 <= i < |response.value.included| ==> IncludedVideo(response.value.included[i]).None?)
            ==> video == NodeFieldVideo(response.value.data[0])
  {
    match response
    case None => None
    case Some(doc) =>
      if |doc.data| == 0 then None
      else
        match FirstIncludedVideo(doc.included)
        case Some(v) => Some(v)
        case None => NodeFieldVideo(doc.data[0])
  }
}
