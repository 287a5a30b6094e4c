# telegram-music: image-header sniffer and bot decisions, in Dafny

This project models the two small pure pieces of the telegram-music bot:

- **`imghdr.what`** (imghdr.py): a byte header is classified as `jpeg`, `png`,
  `gif` or nothing by comparing its leading bytes with fixed magic numbers: the
  JPEG start-of-image marker followed by a JFIF (`FF D8 FF E0`) or Exif
  (`FF D8 FF E1`) segment, the PNG file signature of section 3.1 of RFC 2083, and
  the `GIF87a` / `GIF89a` header. A header passed as `h` wins; otherwise the first
  32 bytes of a file or `io.BytesIO` buffer are used, and any other object gives
  no answer.
- **The decisions in bot.py**: a text message gets the two-button format keyboard
  when it contains `youtube.com` or `youtu.be`; each button carries the payload
  `"<mode>|<text>"`, which `button_handler` splits on the first `|`; the mode
  `mp3` selects an audio-only download (`bestaudio/best`), anything else a video
  download (`bestvideo+bestaudio/best`); a downloaded file is uploaded only when
  it is at most 49 MiB (51380224 bytes). `safe_filename`, which returns the
  string form of the `id` entry of a download's info dictionary, is defined but
  never called: downloaded files are named by the downloader's output template.

Files:

- `wrappers.dfy` — `Option`, standing in for Python's `None`.
- `pystr.dfy` — module `PyStr`: the Python `str` operations the bot uses
  (`sub in s`, `s.split(sep, 1)`, `str(int)`), each with an independent
  characterisation.
- `imghdr.dfy` — module `ImageHeader`: signatures, `Classify` (the comparisons on
  a header), `What` (the whole function, file argument included) and the
  exclusivity, order and eight-byte-window lemmas. Headers are `seq<bv8>`;
  Python's slice `h[:n]` is `Take`, which returns the whole header when it is
  shorter, so a short header compares unequal to every signature, as in Python.
- `bot.dfy` — module `Bot`: message handling, payload codec, download options,
  upload limit and file names.

Python's `imghdr.what` opens a path and reads 32 bytes from it; here a path
stands for the file it names, given by its contents, and reading is taking the
first 32 bytes. The size of a downloaded file is a plain parameter.

## Model

| member | source | states |
|---|---|---|
| `ImageHeader.Take` | imghdr.py:13-17 | the slice `h[:n]` is a prefix of `h` holding `n` bytes, or all of `h` when it is shorter |
| `ImageHeader.ImageType.Name` | imghdr.py:13-18 | the three formats are reported as the tags `jpeg`, `png` and `gif` |
| `ImageHeader.NamesDistinct` | imghdr.py:13-18 | different formats are reported under different tags |
| `ImageHeader.TakeMatches` | imghdr.py:13-17 | comparing `h[:n]` with an n-byte signature is the same as testing that `h` begins with it; a shorter header never matches |
| `ImageHeader.Classify` | imghdr.py:13-19 | the answer is `jpeg` exactly when the header begins with `FF D8 FF E0` or `FF D8 FF E1`, `png` exactly when it begins with the eight PNG signature bytes, `gif` exactly when it begins with `GIF87a` or `GIF89a`, none otherwise; every header shorter than 4 bytes gives none |
| `ImageHeader.SignaturesExclusive` | imghdr.py:13-18 | no header begins with two of the JPEG, PNG and GIF signatures |
| `ImageHeader.ClassifyOrderIrrelevant` | imghdr.py:13-18 | making the three comparisons in the opposite order gives the same answer for every header |
| `ImageHeader.ClassifyReadsEightBytes` | imghdr.py:13-19 | a header and its first eight bytes get the same answer |
| `ImageHeader.ClassifyIgnoresTail` | imghdr.py:13-19 | two headers that agree on their first eight bytes get the same answer, whatever follows |
| `ImageHeader.ReadHeader` | imghdr.py:4-11 | without `h`, a path or `BytesIO` yields the prefix of its contents of length 32, or all of the contents when they are shorter; any other object yields nothing |
| `ImageHeader.ReadHeaderKeepsWindow` | imghdr.py:7-9 | the 32-byte header read from a file or buffer starts with the same eight bytes as the whole contents |
| `ImageHeader.What` | imghdr.py:3-19 | a given header decides the answer alone; a `BytesIO` or path is classified by the first eight bytes of its contents; any other object without a header gives none |
| `PyStr.Contains` | bot.py:59 | `sub in s` holds exactly when `sub` occurs at some index of `s` |
| `PyStr.FindChar` | bot.py:72 | in the first-separator search that `split("|", 1)` performs, the result is the index of the first occurrence of the character, and is absent exactly when the character does not occur |
| `PyStr.SplitOnce` | bot.py:72 | `split(sep, 1)` gives one part, the whole string, exactly when `sep` is absent; otherwise two parts that rejoin around `sep` to the input, the first free of `sep` |
| `PyStr.SplitPointUnique` | bot.py:72-76 | a string splits in only one way into a `sep`-free part, `sep`, and a rest |
| `PyStr.ShowNat` | bot.py:22 | `str(n)` of a natural is a canonical decimal numeral (digits only, no leading zero), and is `"0"` exactly for zero |
| `PyStr.ParseShowNat` | bot.py:22 | reading back the decimal digits of `str(n)` gives `n` |
| `PyStr.ShowInt` | bot.py:22 | `str(n)` of an integer is a canonical numeral (optional `-`, then digits without a leading zero, never `-0`) that reads back as `n`, and starts with `-` exactly when `n` is negative |
| `PyStr.DecimalCanonical` | bot.py:22 | every canonical decimal numeral is the `str()` of the number it denotes |
| `PyStr.NumeralUnique` | bot.py:22 | two canonical numerals with the same value are the same string, so the form of `str(n)` fixes it completely |
| `Bot.MessageText` | bot.py:58 | a message without text is treated as the empty string; otherwise its text is used unchanged |
| `Bot.IsYoutubeLink` | bot.py:59 | a text is a link exactly when `youtube.com` or `youtu.be` occurs in it |
| `Bot.CallbackData` | bot.py:61-62 | the payload is the mode, then `|`, then the whole text, unchanged |
| `Bot.HandleMessage` | bot.py:57-66 | the keyboard is sent exactly when the text (empty when missing) contains `youtube.com` or `youtu.be`, and its two payloads parse back to `mp3` and `video` with the whole text |
| `Bot.ParseCallback` | bot.py:72-76 | a payload is invalid exactly when it has no `|`; otherwise its mode is `|`-free and mode, `|` and url rebuild the payload |
| `Bot.CallbackRoundTrip` | bot.py:61-76 | for any `|`-free mode, parsing the built payload gives back the mode and the text, even when the text contains `|` |
| `Bot.AudioOnly` | bot.py:80 | the mode `mp3` gives an audio-only download with format `bestaudio/best`; every other mode, `video` and unknown ones alike, gives a video download with format `bestvideo+bestaudio/best` |
| `Bot.ModeFromPrefix` | bot.py:76-80 | for a parsed payload, `audio_only` holds exactly when the payload begins with `mp3|` |
| `Bot.BaseOptions` | bot.py:25-31 | the first options choose `bestaudio/best` exactly for audio and `bestvideo+bestaudio/best` otherwise, turn off playlists, output and warnings, and write to `/tmp/downloads/%(id)s.%(ext)s` |
| `Bot.ApplyAudioOverride` | bot.py:32-34 | for audio the format becomes `bestaudio/best`, for video nothing changes, and no option other than the format is ever touched |
| `Bot.AudioOverrideRedundant` | bot.py:26-34 | the later audio-only format assignment leaves the options exactly as first built |
| `Bot.DownloadOpts` | bot.py:24-34 | the format is `bestaudio/best` exactly for audio-only downloads and `bestvideo+bestaudio/best` otherwise, so the literal `bestvideo` occurs in the format string exactly for video downloads; playlists, output and warnings are off and files go to `/tmp/downloads/%(id)s.%(ext)s` |
| `Bot.Deliver` | bot.py:82-95 | a file is too large exactly when its size exceeds 51380224 bytes; otherwise it is sent as audio in audio-only mode and as video in every other mode |
| `Bot.DeliverMonotone` | bot.py:83-84 | a smaller file than one that is uploaded is uploaded the same way |
| `Bot.ButtonHandler` | bot.py:69-96 | a press is an invalid action exactly when the payload has no `|`; otherwise the url is everything after the first `|`, the download options are the audio-only ones exactly when the payload begins with `mp3|` and the video ones otherwise (every field fixed), the too-large branch is taken exactly above 49 MiB, and a file within the limit is sent as audio exactly for `mp3|` payloads |
| `Bot.MessageToDownload` | bot.py:57-81 | pressing the MP3 or the Video button sent for a message downloads the message text with the audio or video options respectively |
| `Bot.Render` | bot.py:22 | `str()` of an info value: a string unchanged, an integer as its canonical numeral, `True`/`False`, and `None` |
| `Bot.SafeFilename` | bot.py:20-22 | the name is the `id` entry's string form: the string itself, the canonical decimal numeral of an integer, `True` or `False` for a boolean, `None` when the entry is absent or `None` |
| `Bot.SafeFilenameIgnoresOtherFields` | bot.py:20-22 | changing or adding any entry other than `id` leaves the name unchanged |

## Left out

- Opening and reading a path in `imghdr.what`: file I/O; a path is modelled as the bytes of the file it names.
- `what` with `h` of a type other than bytes: only byte headers are modelled.
- The Flask routes, `Update.de_json`, the dispatcher wiring, the `start` and `help` replies, and the webhook registration with `time.sleep`: framework and network plumbing.
- The `yt_dlp.YoutubeDL` call, `prepare_filename`, `send_audio`/`send_video`, captions taken from the download's title, `os.path.getsize` and the removal of the file: foreign library calls and file-system effects; the downloaded size is a parameter of `Bot.ButtonHandler`.
- `human_size`: floating-point division and `%.1f` formatting.
- The `except Exception` branch of `button_handler`: it only reports errors raised by the excluded collaborators.
- A payload longer than the messaging platform accepts for button data: bot.py does not check it, and the limit belongs to the platform.
- `Bot.SafeFilename`: only string, integer, boolean and `None` values of the info dictionary are modelled; other Python objects' `str()` forms are not.
- PyStr.ShowInt: the interpreter's limit on converting integers with more than 4300 decimal digits to text (recent CPython raises `ValueError`) is not modelled; the model renders integers of any size.
