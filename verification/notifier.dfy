/**
 * The notifier's payload construction: one entry of the new-items file
 * becomes a Discord webhook message with a single embed, plus the voice-clip
 * URL, which is returned beside the message and not put into it. The voice
 * clip is later posted as an attachment whose file name is derived from its
 * URL. The posting itself is not modelled.
 */
module Notifier {

  import opened Wrappers
  import opened Json
  import opened Text
  import Harvester

  const ThreadUrlPrefix := "https://www.holoplus.com/app/threads/"
  const MaxDescription: nat := 3800
  const MaxContent: nat := 2000
  const PlaceholderTitle := "Holoplus Thread"
  const DefaultVoiceExtension := "m4a"
  const VoiceFilenameStem := "voice-clip."

  datatype Author = Author(name: Value, iconUrl: Option<Value>)

  /** `description` is always sent, as null when `None`; `url`, `author` and `image` only when `Some`. */
  datatype Embed = Embed(
    title: string,
    description: Option<string>,
    url: Option<string>,
    author: Option<Author>,
    image: Option<Value>)

  /** `content` is sent only when `Some`. */
  datatype Payload = Payload(content: Option<string>, embeds: seq<Embed>)

  // ---------------------------------------------------------------------------
  // Reading an entry

  /** `entry.get("thread") or {}`. */
  function ThreadOf(entry: Object): Object {
    AsObject(Get(entry, "thread"))
  }

  function TranslationsOf(entry: Object): Object {
    AsObject(Get(ThreadOf(entry), "translations"))
  }

  /** `translations.get("ja") or {}`. */
  function JaOf(entry: Object): Object {
    AsObject(Get(TranslationsOf(entry), "ja"))
  }

  function UserOf(entry: Object): Object {
    AsObject(Get(ThreadOf(entry), "user"))
  }

  function ChannelNameValue(entry: Object): Value {
    GetOr(entry, "channel_name", Str(""))
  }

  /** `ja.get("title") or thread.get("title") or ""`. */
  function TitleValue(entry: Object): Value {
    Or(Or(Get(JaOf(entry), "title"), Get(ThreadOf(entry), "title")), Str(""))
  }

  /** `ja.get("body") or thread.get("body") or ""`. */
  function BodyValue(entry: Object): Value {
    Or(Or(Get(JaOf(entry), "body"), Get(ThreadOf(entry), "body")), Str(""))
  }

  /** `entry.get("thread_id") or thread.get("id")`. */
  function ThreadIdValue(entry: Object): Value {
    Or(Get(entry, "thread_id"), Get(ThreadOf(entry), "id"))
  }

  function ImageUrlsValue(entry: Object): Value {
    Get(ThreadOf(entry), "image_urls")
  }

  /** `(thread.get("voice_clip") or {}).get("url")`. */
  function VoiceUrl(entry: Object): Value {
    Get(AsObject(Get(ThreadOf(entry), "voice_clip")), "url")
  }

  /**
   * The entry has the shape the payload code dereferences without raising:
   * what is read with `.get` is an object or falsy, `image_urls` is a list
   * or falsy, and what is formatted or measured as text is a string.
   */
  predicate Renderable(entry: Object) {
    ChannelNameValue(entry).Str? &&
    ObjectOrFalsy(Get(entry, "thread")) &&
    ObjectOrFalsy(Get(ThreadOf(entry), "translations")) &&
    ObjectOrFalsy(Get(TranslationsOf(entry), "ja")) &&
    ObjectOrFalsy(Get(ThreadOf(entry), "user")) &&
    ObjectOrFalsy(Get(ThreadOf(entry), "voice_clip")) &&
    (!Truthy(ImageUrlsValue(entry)) || ImageUrlsValue(entry).Arr?) &&
    TitleValue(entry).Str? &&
    BodyValue(entry).Str? &&
    TextOrFalsy(ThreadIdValue(entry))
  }

  function ChannelName(entry: Object): string {
    AsText(ChannelNameValue(entry))
  }

  function Title(entry: Object): string {
    AsText(TitleValue(entry))
  }

  function Body(entry: Object): string {
    AsText(BodyValue(entry))
  }

  // ---------------------------------------------------------------------------
  // The parts of the payload

  /** `f"[{channel_name}] {title}".strip()`: never empty, since it starts with `[`. */
  function Header(entry: Object): (header: string)
    ensures header != [] && header[0] == '['
  {
    var raw := "[" + ChannelName(entry) + "] " + Title(entry);
    StripKeepsHead(raw);
    Strip(raw)
  }

  /** `"\n".join(desc_lines)`, cut down to `MaxDescription` characters: empty exactly when the body is. */
  function Description(entry: Object): (d: string)
    ensures |d| <= MaxDescription
    ensures d == "" <==> Body(entry) == ""
  {
    var body := Body(entry);
    var descLines := if body != "" then [body] else [];
    Truncate(Join(descLines, '\n'), MaxDescription)
  }

  /** The thread's page, when there is a thread id. */
  function ThreadUrl(entry: Object): (url: Option<string>)
    ensures url.Some? <==> Truthy(ThreadIdValue(entry))
    ensures url.Some? ==> ThreadUrlPrefix <= url.value
  {
    var threadId := ThreadIdValue(entry);
    if Truthy(threadId) then Some(ThreadUrlPrefix + AsText(threadId)) else None
  }

  /** The embed's author: only with a truthy name or icon, and with the icon only when it is truthy. */
  function AuthorOf(entry: Object): (author: Option<Author>)
    ensures author.Some? ==> Truthy(author.value.name) || author.value.iconUrl.Some?
    ensures author.Some? && author.value.iconUrl.Some? ==> Truthy(author.value.iconUrl.value)
  {
    var name := Or(Get(UserOf(entry), "name"), ChannelNameValue(entry));
    var icon := Get(UserOf(entry), "icon_url");
    if Truthy(name) || Truthy(icon)
    then Some(Author(name, if Truthy(icon) then Some(icon) else None))
    else None
  }

  /** The embed's image: only when there are image URLs, and then the first of them. */
  function ImageOf(entry: Object): (image: Option<Value>)
    ensures image.Some? ==>
              Truthy(ImageUrlsValue(entry)) && ImageUrlsValue(entry).Arr? && image.value == ImageUrlsValue(entry).items[0]
  {
    var imageUrls := ImageUrlsValue(entry);
    if Truthy(imageUrls) && imageUrls.Arr? then Some(imageUrls.items[0]) else None
  }

  /** `header if header else thread_url or ""`, cut down to `MaxContent` characters: never empty. */
  function Content(entry: Object): (content: string)
    ensures 0 < |content| <= MaxContent
  {
    var header := Header(entry);
    var url := ThreadUrl(entry);
    var content := if header != "" then header else match url case Some(u) => u case None => "";
    Truncate(content, MaxContent)
  }

  /** The embed's title: the title, else the channel name, else a placeholder; never empty. */
  function EmbedTitle(entry: Object): (t: string)
    ensures t != ""
  {
    if Title(entry) != "" then Title(entry)
    else if ChannelName(entry) != "" then ChannelName(entry)
    else PlaceholderTitle
  }

  function EmbedOf(entry: Object): Embed {
    var description := Description(entry);
    Embed(
      EmbedTitle(entry),
      if description != "" then Some(description) else None,
      ThreadUrl(entry),
      AuthorOf(entry),
      ImageOf(entry))
  }

  function Message(entry: Object): Payload {
    var content := Content(entry);
    Payload(if content != "" then Some(content) else None, [EmbedOf(entry)])
  }

  /** `build_discord_payload`: the message and, beside it, the voice-clip URL. */
  function BuildPayload(entry: Object): (r: (Payload, Value))
    requires Renderable(entry)
    ensures r.1 == VoiceUrl(entry)
    ensures r.0.content.Some? && 0 < |r.0.content.value| <= MaxContent
    ensures |r.0.embeds| == 1
    ensures var embed := r.0.embeds[0];
            embed.title != "" &&
            (embed.description.Some? ==> 0 < |embed.description.value| <= MaxDescription) &&
            (embed.url.Some? <==> Truthy(ThreadIdValue(entry))) &&
            (embed.author.Some? ==> Truthy(embed.author.value.name) || embed.author.value.iconUrl.Some?) &&
            (embed.image.Some? <==> Truthy(ImageUrlsValue(entry)))
  {
    ContentIsHeader(entry);
    (Message(entry), VoiceUrl(entry))
  }

  // ---------------------------------------------------------------------------
  // What the payload promises

  /** Title and body prefer the Japanese translation, then the thread's own text, then "". */
  lemma {:induction false} TitleAndBodyFallback(entry: Object)
    requires Renderable(entry)
    ensures var ja, own := Get(JaOf(entry), "title"), Get(ThreadOf(entry), "title");
            Title(entry) == if Truthy(ja) then ja.s else if Truthy(own) then own.s else ""
    ensures var ja, own := Get(JaOf(entry), "body"), Get(ThreadOf(entry), "body");
            Body(entry) == if Truthy(ja) then ja.s else if Truthy(own) then own.s else ""
  {
  }

  /**
   * The header starts with `[`, so it is never empty, and `content` is always
   * the header cut down to at most `MaxContent` characters: the fallback to
   * the thread URL is never taken.
   */
  lemma {:induction false} ContentIsHeader(entry: Object)
    ensures Header(entry) != [] && Header(entry)[0] == '['
    ensures Content(entry) == Truncate(Header(entry), MaxContent)
    ensures Content(entry) != [] && Content(entry)[0] == '['
  {
  }

  /** A header over 2000 characters becomes its first 1999 characters and an ellipsis. */
  lemma {:induction false} ContentTruncation(entry: Object)
    requires Renderable(entry)
    ensures var content := BuildPayload(entry).0.content.value;
            |content| <= MaxContent &&
            (|Header(entry)| <= MaxContent ==> content == Header(entry)) &&
            (|Header(entry)| > MaxContent ==>
               |content| == MaxContent && content == Header(entry)[..MaxContent - 1] + [Ellipsis])
  {
    ContentIsHeader(entry);
  }

  /**
   * The description is the body, or its first 3799 characters and an
   * ellipsis (3800 in all) when it is longer than 3800; it is null exactly
   * when the body is empty.
   */
  lemma {:induction false} DescriptionTruncation(entry: Object)
    requires Renderable(entry)
    ensures var description := BuildPayload(entry).0.embeds[0].description;
            var body := Body(entry);
            (description.None? <==> body == "") &&
            (0 < |body| <= MaxDescription ==> description == Some(body)) &&
            (|body| > MaxDescription ==>
               description == Some(body[..MaxDescription - 1] + [Ellipsis]) &&
               |description.value| == MaxDescription)
  {
  }

  /** The embed title falls back from the title to the channel name to a placeholder. */
  lemma {:induction false} EmbedTitleFallback(entry: Object)
    requires Renderable(entry)
    ensures var title := BuildPayload(entry).0.embeds[0].title;
            title == if Title(entry) != "" then Title(entry)
                     else if ChannelName(entry) != "" then ChannelName(entry)
                     else PlaceholderTitle
  {
  }

  /** The embed links to the thread exactly when there is a thread id, from the entry or else the thread. */
  lemma {:induction false} EmbedUrl(entry: Object)
    requires Renderable(entry)
    ensures var url := BuildPayload(entry).0.embeds[0].url;
            var fromEntry, fromThread := Get(entry, "thread_id"), Get(ThreadOf(entry), "id");
            (url.Some? <==> Truthy(fromEntry) || Truthy(fromThread)) &&
            (Truthy(fromEntry) ==> url == Some(ThreadUrlPrefix + fromEntry.s)) &&
            (!Truthy(fromEntry) && Truthy(fromThread) ==> url == Some(ThreadUrlPrefix + fromThread.s))
  {
  }

  /**
   * The author is present exactly when the user's name (else the channel
   * name) or the user's icon is truthy; the icon only when it is truthy.
   */
  lemma {:induction false} EmbedAuthor(entry: Object)
    requires Renderable(entry)
    ensures var author := BuildPayload(entry).0.embeds[0].author;
            var name := Or(Get(UserOf(entry), "name"), ChannelNameValue(entry));
            var icon := Get(UserOf(entry), "icon_url");
            (author.Some? <==> Truthy(name) || Truthy(icon)) &&
            (author.Some? ==> author.value.name == name &&
                              (author.value.iconUrl.Some? <==> Truthy(icon)) &&
                              (Truthy(icon) ==> author.value.iconUrl == Some(icon)))
  {
  }

  /** The image is the first of `image_urls` when there are any, and absent otherwise. */
  lemma {:induction false} EmbedImage(entry: Object)
    requires Renderable(entry)
    ensures var image, urls := BuildPayload(entry).0.embeds[0].image, ImageUrlsValue(entry);
            (!Truthy(urls) ==> image.None?) &&
            (Truthy(urls) ==> urls.Arr? && urls.items != [] && image == Some(urls.items[0]))
  {
    var urls := ImageUrlsValue(entry);
    assert !Truthy(urls) || urls.Arr?;
    assert BuildPayload(entry).0.embeds[0].image == ImageOf(entry);
  }

  /** Two objects that agree apart from `removed` agree on every other key. */
  lemma {:induction false} GetAgrees(a: Object, b: Object, removed: string, k: string)
    requires a - {removed} == b - {removed} && k != removed
    ensures Get(a, k) == Get(b, k) && GetOr(a, k, Str("")) == GetOr(b, k, Str(""))
  {
    assert k in a <==> k in a - {removed};
    assert k in b <==> k in b - {removed};
    if k in a {
      assert a[k] == (a - {removed})[k];
      assert b[k] == (b - {removed})[k];
    }
  }

  /** Entries that agree apart from the thread's voice clip read the same message fields. */
  lemma {:induction false} SameFieldsApartFromVoiceClip(e1: Object, e2: Object)
    requires e1 - {"thread"} == e2 - {"thread"}
    requires ThreadOf(e1) - {"voice_clip"} == ThreadOf(e2) - {"voice_clip"}
    ensures ChannelNameValue(e1) == ChannelNameValue(e2)
    ensures TitleValue(e1) == TitleValue(e2) && BodyValue(e1) == BodyValue(e2)
    ensures ThreadIdValue(e1) == ThreadIdValue(e2)
    ensures UserOf(e1) == UserOf(e2) && ImageUrlsValue(e1) == ImageUrlsValue(e2)
  {
    var t1, t2 := ThreadOf(e1), ThreadOf(e2);
    GetAgrees(e1, e2, "thread", "channel_name");
    GetAgrees(e1, e2, "thread", "thread_id");
    GetAgrees(t1, t2, "voice_clip", "translations");
    GetAgrees(t1, t2, "voice_clip", "title");
    GetAgrees(t1, t2, "voice_clip", "body");
    GetAgrees(t1, t2, "voice_clip", "id");
    GetAgrees(t1, t2, "voice_clip", "user");
    GetAgrees(t1, t2, "voice_clip", "image_urls");
  }

  /** The voice clip has no influence on the message: it travels only beside it. */
  lemma {:induction false} PayloadIgnoresVoiceClip(e1: Object, e2: Object)
    requires Renderable(e1) && Renderable(e2)
    requires e1 - {"thread"} == e2 - {"thread"}
    requires ThreadOf(e1) - {"voice_clip"} == ThreadOf(e2) - {"voice_clip"}
    ensures BuildPayload(e1).0 == BuildPayload(e2).0
  {
    SameFieldsApartFromVoiceClip(e1, e2);
    SameFieldsSameMessage(e1, e2);
  }

  /** The message is a function of the fields it reads. */
  lemma {:induction false} SameFieldsSameMessage(e1: Object, e2: Object)
    requires Renderable(e1) && Renderable(e2)
    requires ChannelNameValue(e1) == ChannelNameValue(e2)
    requires TitleValue(e1) == TitleValue(e2) && BodyValue(e1) == BodyValue(e2)
    requires ThreadIdValue(e1) == ThreadIdValue(e2)
    requires UserOf(e1) == UserOf(e2) && ImageUrlsValue(e1) == ImageUrlsValue(e2)
    ensures BuildPayload(e1).0 == BuildPayload(e2).0
  {
    SameTextSameHeader(e1, e2);
    SameHeaderSameContent(e1, e2);
    SameBodySameDescription(e1, e2);
    SameUserSameAuthor(e1, e2);
    assert ImageOf(e1) == ImageOf(e2);
    assert ThreadUrl(e1) == ThreadUrl(e2);
    assert EmbedTitle(e1) == EmbedTitle(e2);
    assert EmbedOf(e1) == EmbedOf(e2);
  }

  lemma {:induction false} SameUserSameAuthor(e1: Object, e2: Object)
    requires UserOf(e1) == UserOf(e2) && ChannelNameValue(e1) == ChannelNameValue(e2)
    ensures AuthorOf(e1) == AuthorOf(e2)
  {
  }

  lemma {:induction false} SameHeaderSameContent(e1: Object, e2: Object)
    requires Header(e1) == Header(e2) && ThreadIdValue(e1) == ThreadIdValue(e2)
    ensures Content(e1) == Content(e2)
  {
  }

  lemma {:induction false} SameBodySameDescription(e1: Object, e2: Object)
    requires BodyValue(e1) == BodyValue(e2)
    ensures Description(e1) == Description(e2)
  {
  }

  lemma {:induction false} SameTextSameHeader(e1: Object, e2: Object)
    requires ChannelNameValue(e1) == ChannelNameValue(e2) && TitleValue(e1) == TitleValue(e2)
    ensures Header(e1) == Header(e2)
  {
  }

  /** A harvested entry with a string id, read back from the new-items file, links to its thread. */
  lemma {:induction false} HarvestedEntryLinksToThread(e: Harvester.Entry)
    requires e.threadId.Str? && e.threadId.s != ""
    requires Renderable(Harvester.EntryRow(e))
    ensures BuildPayload(Harvester.EntryRow(e)).0.embeds[0].url == Some(ThreadUrlPrefix + e.threadId.s)
  {
    assert Get(Harvester.EntryRow(e), "thread_id") == e.threadId;
  }

  // ---------------------------------------------------------------------------
  // The voice clip's attachment name

  /**
   * The extension of the URL's last path segment (after trailing slashes are
   * removed): the text after that segment's last dot, or `m4a` when the
   * segment has no dot.
   */
  function VoiceExtension(voiceUrl: string): (ext: string)
    ensures '/' !in ext && '.' !in ext
  {
    var urlPath := LastField(RStrip(voiceUrl, '/'), '/');
    if '.' in urlPath then LastField(urlPath, '.') else DefaultVoiceExtension
  }

  /**
   * The name the voice clip is attached under: `voice-clip.` and its
   * extension, so a name whose only dot is the one after `voice-clip`.
   */
  function VoiceFilename(voiceUrl: string): (name: string)
    ensures |name| >= |VoiceFilenameStem| && name[..|VoiceFilenameStem|] == VoiceFilenameStem
    ensures '.' !in name[|VoiceFilenameStem|..] && '/' !in name[|VoiceFilenameStem|..]
  {
    var ext := VoiceExtension(voiceUrl);
    assert (VoiceFilenameStem + ext)[|VoiceFilenameStem|..] == ext;
    VoiceFilenameStem + ext
  }

  /** `s` has a dot after its last slash. */
  ghost predicate DotInLastSegment(s: string) {
    exists i :: 0 <= i < |s| && s[i] == '.' && '/' !in s[i + 1..]
  }

  /** The last `/`-segment of `s` has a dot exactly when `s` has a dot after its last slash. */
  lemma {:induction false} LastSegmentDot(s: string)
    ensures '.' in LastField(s, '/') <==> DotInLastSegment(s)
  {
    var segment := LastField(s, '/');
    var start := |s| - |segment|;
    if '.' in segment {
      var j :| 0 <= j < |segment| && segment[j] == '.';
      assert s[start + j] == '.';
      assert s[start + j + 1..] == segment[j + 1..];
    }
    if DotInLastSegment(s) {
      var i :| 0 <= i < |s| && s[i] == '.' && '/' !in s[i + 1..];
      assert segment[i - start] == '.';
    }
  }

  /** A segment with a dot ends with a dot and its last field. */
  lemma {:induction false} ExtensionEndsSegment(segment: string)
    requires '.' in segment
    ensures EndsWith(segment, "." + LastField(segment, '.'))
  {
    var ext := LastField(segment, '.');
    if |ext| == |segment| {
      assert false;
    }
    var k := |segment| - |ext| - 1;
    assert segment[k] == '.';
    assert segment[k..] == [segment[k]] + segment[k + 1..];
  }

  /**
   * The attachment name is `voice-clip.` and an extension free of `.` and
   * `/`; when the URL (without trailing slashes) has a dot in its last
   * segment, it ends with that dot and extension, and otherwise the
   * extension is `m4a`.
   */
  lemma {:induction false} VoiceFilenameSpec(voiceUrl: string)
    ensures var ext, trimmed := VoiceExtension(voiceUrl), RStrip(voiceUrl, '/');
            VoiceFilename(voiceUrl) == VoiceFilenameStem + ext &&
            '/' !in ext && '.' !in ext &&
            (DotInLastSegment(trimmed) ==> EndsWith(trimmed, "." + ext)) &&
            (!DotInLastSegment(trimmed) ==> ext == DefaultVoiceExtension)
  {
    var trimmed := RStrip(voiceUrl, '/');
    LastSegmentDot(trimmed);
    if DotInLastSegment(trimmed) {
      VoiceExtensionFollowsDot(voiceUrl);
    }
  }

  /** When the last segment has a dot, the URL ends with that dot and the extension. */
  lemma {:induction false} VoiceExtensionFollowsDot(voiceUrl: string)
    requires '.' in LastField(RStrip(voiceUrl, '/'), '/')
    ensures EndsWith(RStrip(voiceUrl, '/'), "." + VoiceExtension(voiceUrl))
  {
    var trimmed := RStrip(voiceUrl, '/');
    var segment := LastField(trimmed, '/');
    assert VoiceExtension(voiceUrl) == LastField(segment, '.');
    ExtensionEndsSegment(segment);
    EndsWithTransitive(trimmed, segment, "." + LastField(segment, '.'));
  }
}
