/** The pure decisions inside bot.py: recognising a YouTube link, the
    `"<mode>|<text>"` payload of the two format buttons and its parsing, the
    choice of audio or video download options, the 49 MiB upload limit, and the
    file name taken from a download's info dictionary. */
module Bot {
  import opened Wrappers
  import PyStr

  /** Separates the mode from the link in a button payload. */
  const Separator: char := '|'

  const Mp3Mode: string := "mp3"
  const VideoMode: string := "video"

  const YoutubeHost: string := "youtube.com"
  const YoutuBeHost: string := "youtu.be"

  // ---------------------------------------------------------------------------
  // Incoming text messages
  // ---------------------------------------------------------------------------

  /** Python's `text or ""`: a message without text is treated as empty text. */
  function MessageText(text: Option<string>): (t: string)
    ensures text.None? ==> t == ""
    ensures text.Some? ==> t == text.value
  {
    text.GetOr("")
  }

  /** The link test of `handle_message`: a plain substring test for either host. */
  function IsYoutubeLink(text: string): (b: bool)
    ensures b <==> PyStr.IsSubstring(YoutubeHost, text) || PyStr.IsSubstring(YoutuBeHost, text)
  {
    PyStr.Contains(text, YoutubeHost) || PyStr.Contains(text, YoutuBeHost)
  }

  /** The `callback_data` of a format button: the mode, the separator, then the
      whole message text. */
  function CallbackData(mode: string, text: string): (data: string)
    ensures |data| == |mode| + 1 + |text|
    ensures data[..|mode|] == mode
    ensures data[|mode|] == Separator
    ensures data[|mode| + 1..] == text
  {
    mode + [Separator] + text
  }

  /** The reply to a text message: a keyboard with an MP3 and a Video button, or
      a prompt to send a YouTube link. */
  datatype Reply =
    | FormatKeyboard(mp3Data: string, videoData: string)
    | LinkPrompt

  /** `handle_message`. */
  function HandleMessage(text: Option<string>): (r: Reply)
    ensures r.FormatKeyboard? <==>
              PyStr.IsSubstring(YoutubeHost, MessageText(text))
              || PyStr.IsSubstring(YoutuBeHost, MessageText(text))
    ensures r.FormatKeyboard? ==>
              ParseCallback(r.mp3Data) == Some(Action(Mp3Mode, MessageText(text)))
              && ParseCallback(r.videoData) == Some(Action(VideoMode, MessageText(text)))
  {
    var t := MessageText(text);
    if IsYoutubeLink(t) then
      CallbackRoundTrip(Mp3Mode, t);
      CallbackRoundTrip(VideoMode, t);
      FormatKeyboard(CallbackData(Mp3Mode, t), CallbackData(VideoMode, t))
    else
      LinkPrompt
  }

  // ---------------------------------------------------------------------------
  // Button presses
  // ---------------------------------------------------------------------------

  /** A parsed button payload. */
  datatype Action = Action(mode: string, url: string)

  /** The payload parsing of `button_handler`: split on the first separator; a
      payload without one is an invalid action. */
  function ParseCallback(data: string): (r: Option<Action>)
    ensures r.None? <==> Separator !in data
    ensures r.Some? ==> CallbackData(r.value.mode, r.value.url) == data
    ensures r.Some? ==> Separator !in r.value.mode
  {
    var parts := PyStr.SplitOnce(data, Separator);
    if |parts| != 2 then None else Some(Action(parts[0], parts[1]))
  }

  /** Building a payload and parsing it back gives the mode and the text again,
      whatever separators the text contains, as long as the mode has none. */
  lemma CallbackRoundTrip(mode: string, text: string)
    requires Separator !in mode
    ensures ParseCallback(CallbackData(mode, text)) == Some(Action(mode, text))
  {
    var data := CallbackData(mode, text);
    var a := ParseCallback(data).value;
    PyStr.SplitPointUnique(a.mode, a.url, mode, text, Separator);
  }

  /** `audio_only`: only the exact mode "mp3" asks for audio. */
  function AudioOnly(mode: string): (b: bool)
    ensures mode == Mp3Mode ==> b && DownloadOpts(b).format == AudioFormat
    ensures mode != Mp3Mode ==> !b && DownloadOpts(b).format == VideoFormat
  {
    mode == Mp3Mode
  }

  // ---------------------------------------------------------------------------
  // Download options
  // ---------------------------------------------------------------------------

  const DownloadDir: string := "/tmp/downloads"
  const AudioFormat: string := "bestaudio/best"
  const VideoFormat: string := "bestvideo+bestaudio/best"

  /** The options handed to the downloader. */
  datatype DownloadOptions = DownloadOptions(
    format: string,
    outtmpl: string,
    noplaylist: bool,
    quiet: bool,
    noWarnings: bool)

  /** The options dictionary as first written in `download_youtube`. */
  function BaseOptions(audioOnly: bool): (o: DownloadOptions)
    ensures o.format == AudioFormat <==> audioOnly
    ensures o.format == AudioFormat || o.format == VideoFormat
    ensures o.noplaylist && o.quiet && o.noWarnings
    ensures o.outtmpl == "/tmp/downloads/%(id)s.%(ext)s"
  {
    DownloadOptions(
      if audioOnly then AudioFormat else VideoFormat,
      DownloadDir + "/%(id)s.%(ext)s",
      true, true, true)
  }

  /** The later assignment `opts['format'] = 'bestaudio/best'` for audio. */
  function ApplyAudioOverride(opts: DownloadOptions, audioOnly: bool): (o: DownloadOptions)
    ensures audioOnly ==> o.format == AudioFormat
    ensures !audioOnly ==> o == opts
    ensures o.(format := opts.format) == opts
  {
    if audioOnly then opts.(format := AudioFormat) else opts
  }

  /** The override never changes what the dictionary already holds. */
  lemma AudioOverrideRedundant(audioOnly: bool)
    ensures ApplyAudioOverride(BaseOptions(audioOnly), audioOnly) == BaseOptions(audioOnly)
  {
  }

  /** The literal `bestvideo` occurs in the video format string and not in the
      audio one. */
  lemma FormatStreams()
    ensures PyStr.IsSubstring("bestvideo", VideoFormat)
    ensures !PyStr.IsSubstring("bestvideo", AudioFormat)
  {
    assert PyStr.OccursAt("bestvideo", VideoFormat, 0);
    assert "bestvideo"[4] == 'v';
    assert forall k :: 0 <= k < |AudioFormat| ==> AudioFormat[k] != 'v';
    PyStr.AbsentCharBlocksSubstring("bestvideo", AudioFormat, 'v');
  }

  /** The options `download_youtube` passes to the downloader. */
  function DownloadOpts(audioOnly: bool): (o: DownloadOptions)
    ensures o.format == AudioFormat <==> audioOnly
    ensures !audioOnly ==> o.format == VideoFormat
    ensures PyStr.IsSubstring("bestvideo", o.format) <==> !audioOnly
    ensures o.noplaylist && o.quiet && o.noWarnings
    ensures o.outtmpl == "/tmp/downloads/%(id)s.%(ext)s"
  {
    FormatStreams();
    ApplyAudioOverride(BaseOptions(audioOnly), audioOnly)
  }

  // ---------------------------------------------------------------------------
  // Upload size limit
  // ---------------------------------------------------------------------------

  /** 49 MiB: the largest file the bot will upload. */
  const MaxUpload: nat := 49 * 1024 * 1024

  /** What happens to a downloaded file. */
  datatype Delivery = TooLarge | SendAudio | SendVideo

  /** The size check and the audio/video choice after a download. */
  function Deliver(audioOnly: bool, sizeBytes: nat): (d: Delivery)
    ensures d.TooLarge? <==> sizeBytes > 51380224
    ensures d.SendAudio? <==> sizeBytes <= 51380224 && audioOnly
    ensures d.SendVideo? <==> sizeBytes <= 51380224 && !audioOnly
  {
    if sizeBytes > MaxUpload then TooLarge
    else if audioOnly then SendAudio
    else SendVideo
  }

  /** A file that is uploaded stays uploaded when it is smaller. */
  lemma DeliverMonotone(audioOnly: bool, small: nat, large: nat)
    requires small <= large
    ensures !Deliver(audioOnly, large).TooLarge? ==> Deliver(audioOnly, small) == Deliver(audioOnly, large)
  {
  }

  /** The outcome of a button press. */
  datatype ButtonOutcome =
    | InvalidAction
    | Downloaded(url: string, options: DownloadOptions, delivery: Delivery)

  /** `button_handler` up to the upload, given the size of the downloaded file. */
  function ButtonHandler(data: string, sizeBytes: nat): (r: ButtonOutcome)
    ensures r.InvalidAction? <==> Separator !in data
    ensures r.Downloaded? ==> exists mode :: Separator !in mode && data == mode + [Separator] + r.url
    ensures r.Downloaded? ==> (r.options.format == AudioFormat <==> Mp3Mode + [Separator] <= data)
    ensures r.Downloaded? ==> r.options == DownloadOpts(Mp3Mode + [Separator] <= data)
    ensures r.Downloaded? ==> (r.delivery.TooLarge? <==> sizeBytes > MaxUpload)
    ensures r.Downloaded? && sizeBytes <= MaxUpload ==> (r.delivery.SendAudio? <==> Mp3Mode + [Separator] <= data)
  {
    match ParseCallback(data)
    case None => InvalidAction
    case Some(Action(mode, url)) =>
      var audioOnly := AudioOnly(mode);
      ModeFromPrefix(mode, url);
      Downloaded(url, DownloadOpts(audioOnly), Deliver(audioOnly, sizeBytes))
  }

  /** A parsed payload asks for audio exactly when it begins with "mp3|". */
  lemma ModeFromPrefix(mode: string, url: string)
    requires Separator !in mode
    ensures AudioOnly(mode) <==> Mp3Mode + [Separator] <= mode + [Separator] + url
  {
    var data := mode + [Separator] + url;
    var prefix := Mp3Mode + [Separator];
    if prefix <= data {
      PyStr.FirstSeparatorAt(mode, url, Separator);
      PyStr.FirstSeparatorAt(Mp3Mode, [], Separator);
      assert data[..|prefix|] == prefix;
      assert |mode| == |Mp3Mode|;
      assert mode == data[..|mode|] == Mp3Mode;
    }
  }

  /** Pressing either button of the keyboard sent for a message downloads the
      message text with the options for that button's format. */
  lemma MessageToDownload(text: Option<string>, sizeBytes: nat)
    requires HandleMessage(text).FormatKeyboard?
    ensures ButtonHandler(HandleMessage(text).mp3Data, sizeBytes)
              == Downloaded(MessageText(text), DownloadOpts(true), Deliver(true, sizeBytes))
    ensures ButtonHandler(HandleMessage(text).videoData, sizeBytes)
              == Downloaded(MessageText(text), DownloadOpts(false), Deliver(false, sizeBytes))
  {
  }

  // ---------------------------------------------------------------------------
  // File names
  // ---------------------------------------------------------------------------

  /** A value in the downloader's info dictionary. */
  datatype InfoValue = Str(s: string) | Int(n: int) | Bool(b: bool) | Null

  /** Python's `str()` of an info value. */
  function Render(v: InfoValue): (r: string)
    ensures v.Str? ==> r == v.s
    ensures v.Int? ==> PyStr.IsNumeral(r) && PyStr.ParseInt(r) == v.n
    ensures v.Bool? ==> r == if v.b then "True" else "False"
    ensures v.Null? ==> r == "None"
  {
    match v
    case Str(s) => s
    case Int(n) => PyStr.ShowInt(n)
    case Bool(b) => if b then "True" else "False"
    case Null => "None"
  }

  /** `safe_filename`: the string form of the `id` entry (`None` when absent). */
  function SafeFilename(info: map<string, InfoValue>): (name: string)
    ensures "id" !in info || info["id"] == Null ==> name == "None"
    ensures "id" in info && info["id"].Str? ==> name == info["id"].s
    ensures "id" in info && info["id"].Int? ==>
              PyStr.IsNumeral(name) && PyStr.ParseInt(name) == info["id"].n
    ensures "id" in info && info["id"].Bool? ==> name == if info["id"].b then "True" else "False"
  {
    Render(if "id" in info then info["id"] else Null)
  }

  /** Every entry other than `id` is ignored. */
  lemma SafeFilenameIgnoresOtherFields(info: map<string, InfoValue>, key: string, v: InfoValue)
    requires key != "id"
    ensures SafeFilename(info[key := v]) == SafeFilename(info)
  {
  }
}
