# TrayRunner2049 core, modelled in Dafny

TrayRunner2049 is a Windows tray application that starts console programs from saved
profiles and shows their output in a coloured log window. This project models three
pieces of it as pure Dafny functions and proves properties of them:

- **The ANSI text box** (`AnsiRichTextBox`). Process output arrives in chunks. Each chunk is
  scanned for SGR sequences (`ESC [ digits-and-semicolons m`). The text between sequences
  is appended in the current colours and style, and every sequence updates that format. A
  possibly incomplete sequence at the end of a chunk is buffered until the next chunk.
  The batch-update guard (`BeginUpdate`/`EndUpdate`) that brackets each append is
  modelled too, as the list of control calls it makes.
- **The profile file format** (`Profile.FromFile` and `Profile.SaveToFile`). A profile is a
  file of `Key=Value` lines. The model covers reading them into a dictionary, matching the
  keys without regard to case, and writing the six known fields back out.
- **The ICO header** (`ImageExtensions.CreateIconFromBitmap`): the 22-byte ICONDIR and
  ICONDIRENTRY put in front of a PNG image.

Files and modules:

| file | module | contents |
|---|---|---|
| `wrappers.dfy` | `Wrappers` | `Option` and `Result` |
| `ansi_colors.dfy` | `AnsiColors` | the colour tables: 3-bit, bright, 256-colour palette, clamped RGB |
| `sgr_codes.dfy` | `SgrCodes` | the format state, `int.TryParse` on tokens, `Split(';')`, and the code switch (`ProcessEscapeCode`, extended colours) |
| `sgr_scanner.dfy` | `SgrScanner` | where SGR sequences start (the regular expression), `LastIndexOf`, and the shape of the buffer |
| `ansi_text_box.dfy` | `AnsiTextBox` | the box's state, the match loop, `ProcessRemainingText`, `AppendAnsiText`, `FlushIncompleteBuffer`, and the colour-change handlers |
| `ansi_semantics.dfy` | `AnsiSemantics` | two independent reference readings: a whole-text reading `Interp` and a character-at-a-time machine `Run` |
| `ansi_properties.dfy` | `AnsiProperties` | the box agrees with both readings, so how output is split into chunks does not matter |
| `ansi_conservation.dfy` | `AnsiConservation` | no character is lost or invented, and a worked example of text held after a non-SGR escape |
| `batch_update.dfy` | `BatchUpdate` | `BeginUpdate`/`EndUpdate` nesting and the effects they have |
| `text_lines.dfy` | `TextLines` | `Char.IsWhiteSpace`, `Trim`, `File.ReadLines` line splitting, `WriteLine` |
| `profile_format.dfy` | `ProfileFormat` | profile loading and saving, and their round trip |
| `ico_header.dfy` | `IcoHeader` | the ICO bytes, a reader for them, and their round trip |

The main results:

- `AnsiProperties.SplitInvariance`: any two ways of splitting the same output into chunks
  show the same characters in the same formats, and leave the same state.
- `AnsiConservation.AppendConserves`: the text one append shows, followed by what it
  buffers, is the old buffer plus the chunk with the complete SGR sequences removed.
- `ProfileFormat.SaveLoadRoundTrip`: saving a profile and loading the file gives the profile
  back. A null string comes back as an empty string.
- `IcoHeader.ParseCreateIcon`: reading the icon bytes back gives the header fields and the
  PNG bytes.

Every path in the tables below is relative to the root of the TrayRunner2049 repository.

## Model

| member | source | states |
|---|---|---|
| AnsiColors.Get3BitColor | TrayRunner2049/Controls/AnsiRichTextBox.cs:460-480 | indices 0-7 select the eight dim colours in order; every other index gives one of them (black) |
| AnsiColors.Get4BitColor | TrayRunner2049/Controls/AnsiRichTextBox.cs:485-505 | indices 0-7 select the eight bright colours in order; every other index gives one of them (white) |
| AnsiColors.GetRgbColor | TrayRunner2049/Controls/AnsiRichTextBox.cs:510-525 | a 24-bit colour whose channels are the arguments, each clamped into 0..255 |
| AnsiColors.Get256Color | TrayRunner2049/Controls/AnsiRichTextBox.cs:530-588 | indices below 16 (negative ones clamped to 0) are the dim and bright tables; 16-231 are cube colours; from 232 on (above 255 clamped to 255), gray levels of 10*index - 2312 |
| AnsiColors.CubeIndex | TrayRunner2049/Controls/AnsiRichTextBox.cs:564-577 | cube coordinates (r, g, b) sit at index 16 + 36r + 6g + b, with channel levels 0 or 55 + 40c |
| AnsiColors.Palette256Injective | TrayRunner2049/Controls/AnsiRichTextBox.cs:563-584 | palette indices 16 to 255 all give different colours |
| AnsiColors.PaletteEnds | TrayRunner2049/Controls/AnsiRichTextBox.cs:530-588 | index 16 is black and 231 white, the gray ramp runs from 8 at 232 to 238 at 255, and indices below 0 or above 255 give the colours of 0 and 255 |
| SgrCodes.ParseInt32Rendered | TrayRunner2049/Controls/AnsiRichTextBox.cs:334-335 | every rendered number up to int.MaxValue parses back to itself, and anything larger is rejected |
| SgrCodes.LeadingZeroIgnored | TrayRunner2049/Controls/AnsiRichTextBox.cs:334-335 | a leading zero does not change what a code means |
| SgrCodes.JoinSplit | TrayRunner2049/Controls/AnsiRichTextBox.cs:322 | the tokens hold no ';' and joining them with ';' gives back the parameter string |
| SgrCodes.SplitJoin | TrayRunner2049/Controls/AnsiRichTextBox.cs:322 | splitting ';'-joined tokens that hold no ';' gives back the tokens |
| SgrCodes.ApplyCode | TrayRunner2049/Controls/AnsiRichTextBox.cs:337-406 | 0 resets; an unknown code changes nothing; only 0, 39 and the foreground ranges change the foreground; only 0, 49 and the background ranges change the background; only 0-4 and 22-24 change the style; a colour code selects a palette colour |
| SgrCodes.SingleCode | TrayRunner2049/Controls/AnsiRichTextBox.cs:322-337 | a code written alone, other than 38 and 48, passes `Split` and `int.TryParse` and has exactly the effect of its case of the switch |
| SgrCodes.CodeTable | TrayRunner2049/Controls/AnsiRichTextBox.cs:337-406 | the table of single codes as sequences carry them: 0 resets; 1, 3 and 4 set bold, italic and underline; 2 and 22 clear bold, 23 italic and 24 underline; 30-37, 40-47, 90-97 and 100-107 select the dim and bright colours in order; 39 and 49 restore only their own default; other numbers change nothing |
| SgrCodes.ProcessExtendedColor | TrayRunner2049/Controls/AnsiRichTextBox.cs:425-455 | `5;n` consumes two more tokens and selects palette entry n; `2;r;g;b` consumes four and selects the clamped RGB colour; in every other case nothing is consumed and the colour is kept |
| SgrCodes.IncompleteExtendedColor | TrayRunner2049/Controls/AnsiRichTextBox.cs:408-455 | in `38;2;1;2` the incomplete colour consumes only the 38, the foreground is kept, and the last `2` clears bold |
| SgrCodes.ApplyToken | TrayRunner2049/Controls/AnsiRichTextBox.cs:323-418 | each iteration moves forward; an empty token resets; a token that does not parse is skipped without effect; 38 sets the foreground and 48 the background to the colour the extended form selects and resumes after its last argument; any other parsed code takes its case of the switch and moves on one token |
| SgrCodes.PaletteColorCodes | TrayRunner2049/Controls/AnsiRichTextBox.cs:408-446 | the whole string `38;5;n` sets only the foreground, and `48;5;n` only the background, to palette entry n |
| SgrCodes.RgbColorCodes | TrayRunner2049/Controls/AnsiRichTextBox.cs:408-455 | the whole string `38;2;r;g;b` sets only the foreground, and `48;2;r;g;b` only the background, to the clamped 24-bit colour |
| SgrCodes.EscapeCodeBounds | TrayRunner2049/Controls/AnsiRichTextBox.cs:311-419 | a parameter string only ever adds bold, italic or underline, and leaves each colour unchanged, at its default, or at a colour some code selects |
| SgrCodes.TrailingSemicolonResets | TrayRunner2049/Controls/AnsiRichTextBox.cs:322-332 | a parameter string that ends in ';' always ends in a reset, so `1;` is not bold |
| SgrScanner.SgrAtSound | TrayRunner2049/Controls/AnsiRichTextBox.cs:43 | what the scanner reports at a position is ESC, '[', digits and ';', then 'm' |
| SgrScanner.SgrAtExact | TrayRunner2049/Controls/AnsiRichTextBox.cs:43 | every such sequence starting at a position is reported there, with its length |
| SgrScanner.SgrEscOnlyFirst | TrayRunner2049/Controls/AnsiRichTextBox.cs:43 | a sequence holds no ESC after its first character, so matches never overlap |
| SgrScanner.NextSgrLeftmost | TrayRunner2049/Controls/AnsiRichTextBox.cs:202-204 | the next match is the leftmost: no sequence starts between the scan position and it, nor anywhere after the position when there is none |
| SgrScanner.LastIndexOfSpec | TrayRunner2049/Controls/AnsiRichTextBox.cs:236 | the found position holds the character and no later position does; -1 means it does not occur |
| AnsiTextBox.NewTextBox | TrayRunner2049/Controls/AnsiRichTextBox.cs:104-111 | a new box starts with an empty buffer, its colours as both defaults and current colours, and the font's style as the current style |
| AnsiTextBox.RemainingTextSpec | TrayRunner2049/Controls/AnsiRichTextBox.cs:228-257 | the text after the last match is split at its last ESC: the part before it is appended in the current format and the rest is buffered; with no ESC, all of it is appended and nothing is buffered |
| AnsiTextBox.RemainingTextShape | TrayRunner2049/Controls/AnsiRichTextBox.cs:244-247 | no empty run is appended, and the buffer is an ESC followed by no other ESC and no complete sequence |
| AnsiTextBox.ProcessTextPending | TrayRunner2049/Controls/AnsiRichTextBox.cs:198-220 | whatever the text, the match loop leaves a well-shaped buffer |
| AnsiTextBox.ProcessTextNoEmpty | TrayRunner2049/Controls/AnsiRichTextBox.cs:207-211 | the match loop never appends an empty run |
| AnsiTextBox.AppendAnsiText | TrayRunner2049/Controls/AnsiRichTextBox.cs:172-192 | an empty chunk changes nothing; no chunk changes the defaults |
| AnsiTextBox.AppendShape | TrayRunner2049/Controls/AnsiRichTextBox.cs:172-192 | an append never appends an empty run and keeps a well-shaped buffer well shaped |
| AnsiTextBox.FlushIncompleteBuffer | TrayRunner2049/Controls/AnsiRichTextBox.cs:593-600 | the buffered text is appended literally in the current format, the buffer is emptied, and nothing else changes |
| AnsiTextBox.OnForeColorChanged | TrayRunner2049/Controls/AnsiRichTextBox.cs:161-166 | the new colour becomes both the default and the current foreground; the rest is kept |
| AnsiTextBox.OnBackColorChanged | TrayRunner2049/Controls/AnsiRichTextBox.cs:150-155 | the new colour becomes both the default and the current background; the rest is kept |
| AnsiSemantics.InterpHeld | TrayRunner2049/Controls/AnsiRichTextBox.cs:236-251 | what the reference reading holds back is a suffix of the text and has the buffer's shape |
| AnsiSemantics.RunKeepsPending | TrayRunner2049/Controls/AnsiRichTextBox.cs:182-183 | the character-at-a-time machine keeps its buffer well shaped |
| AnsiProperties.RemainingTextMatchesInterp | TrayRunner2049/Controls/AnsiRichTextBox.cs:228-257 | after the last match, the remaining-text step shows exactly what the reference reading shows and buffers what it holds back |
| AnsiProperties.ProcessTextMatchesInterp | TrayRunner2049/Controls/AnsiRichTextBox.cs:198-220 | the match loop shows, cell for cell, what the reference reading shows, and ends in the same format with the same buffer |
| AnsiProperties.RunMatchesInterp | TrayRunner2049/Controls/AnsiRichTextBox.cs:182-185 | feeding the machine one character at a time gives the same result as the reference reading |
| AnsiProperties.FeedAppend | TrayRunner2049/Controls/AnsiRichTextBox.cs:182-183 | feeding `a + b` is feeding `a` and then `b` |
| AnsiProperties.AppendMatchesFeed | TrayRunner2049/Controls/AnsiRichTextBox.cs:172-192 | one append shows what the machine shows when fed the chunk, and leaves its format and buffer |
| AnsiProperties.AppendAllMatchesFeed | TrayRunner2049/Controls/AnsiRichTextBox.cs:172-192 | any sequence of appends shows what the machine shows when fed the chunks joined together |
| AnsiProperties.SplitInvariance | TrayRunner2049/Controls/AnsiRichTextBox.cs:181-185 | two chunkings of the same output show the same cells and leave the same state |
| AnsiConservation.InterpConserves | TrayRunner2049/Controls/AnsiRichTextBox.cs:198-257 | the characters the reference reading shows, followed by what it holds back, are the text with its complete sequences removed |
| AnsiConservation.AppendConserves | TrayRunner2049/Controls/AnsiRichTextBox.cs:182-257 | the text one append shows, followed by the new buffer, is the old buffer plus the chunk with every complete sequence removed |
| AnsiConservation.OtherEscapeHoldsText | TrayRunner2049/Controls/AnsiRichTextBox.cs:236-251 | after a non-SGR escape such as `ESC[K`, the text that follows is buffered, not shown |
| BatchUpdate.UnmatchedEndIsNoOp | TrayRunner2049/Controls/AnsiRichTextBox.cs:678 | `EndUpdate` with no open update changes nothing and does nothing |
| BatchUpdate.OutermostOnly | TrayRunner2049/Controls/AnsiRichTextBox.cs:650-703 | `BeginUpdate` acts, and suspends layout, exactly when no update is open; `EndUpdate` acts, and resumes layout, exactly when it closes the last open update |
| BatchUpdate.CountStaysNatural | TrayRunner2049/Controls/AnsiRichTextBox.cs:652-680 | the nesting count never goes below zero |
| BatchUpdate.CallsBalance | TrayRunner2049/Controls/AnsiRichTextBox.cs:650-703 | over any calls, suspends minus resumes, and hides minus shows, change only as the open state changes; every resume comes with a repaint |
| BatchUpdate.NeverRestoresScroll | TrayRunner2049/Controls/AnsiRichTextBox.cs:669-694 | the saved scroll position is never restored, because every outermost `BeginUpdate` asks for a scroll after the update |
| BatchUpdate.AppendBracket | TrayRunner2049/Controls/AnsiRichTextBox.cs:650-703 | one begin/end pair from idle suspends and resumes layout once, hides and shows the scrollbar only when it was visible, repaints, and returns to idle |
| IcoHeader.Read16Bytes16 | TrayRunner2049/Extensions/ImageExtensions.cs:88-90 | a 16-bit field reads back as the value written |
| IcoHeader.Read32Bytes32 | TrayRunner2049/Extensions/ImageExtensions.cs:108-109 | a 32-bit little-endian field reads back as the value written |
| IcoHeader.DimensionRoundTrip | TrayRunner2049/Extensions/ImageExtensions.cs:93-94 | a width or height reads back as itself exactly when it is between 1 and 256 |
| IcoHeader.CreateIconLayout | TrayRunner2049/Extensions/ImageExtensions.cs:83-116 | the icon is 22 header bytes followed by the PNG bytes, unchanged |
| IcoHeader.ParseCreateIcon | TrayRunner2049/Extensions/ImageExtensions.cs:83-116 | reading the icon gives reserved 0, type 1, one image, the stored dimensions, no palette, 0 planes, 32 bits per pixel, the PNG length, offset 22, and the PNG bytes |
| TextLines.TrimSpec | TrayRunner2049/Components/Profile.cs:85-86 | trimming keeps a slice that neither starts nor ends with white space, and cuts only white space on both sides |
| TextLines.TrimIdentity | TrayRunner2049/Components/Profile.cs:85-86 | trimming leaves a string unchanged exactly when it neither starts nor ends with white space |
| TextLines.TrimIdempotent | TrayRunner2049/Components/Profile.cs:85-86 | trimming twice is trimming once |
| TextLines.TrimEmpty | TrayRunner2049/Components/Profile.cs:80 | trimming gives the empty string exactly for all-white-space text |
| TextLines.ReadLines | TrayRunner2049/Components/Profile.cs:78 | no line read holds a line break |
| TextLines.ReadWriteLines | TrayRunner2049/Components/Profile.cs:194-201 | lines without line breaks, written one per `WriteLine`, read back as the same lines |
| ProfileFormat.ParseLineSkips | TrayRunner2049/Components/Profile.cs:80-81 | a line is skipped exactly when it is blank or has no '=' |
| ProfileFormat.ParseLineSplits | TrayRunner2049/Components/Profile.cs:83-86 | a line is split at its first '=' and both halves are trimmed, so the value may hold '=' |
| ProfileFormat.AddLinesSpec | TrayRunner2049/Components/Profile.cs:78-89 | filling the dictionary succeeds exactly when no key repeats, and then holds every pair in line order; a failure names a key that two of the pairs share |
| ProfileFormat.AssignAllSpec | TrayRunner2049/Components/Profile.cs:97-120 | applying the pairs fails exactly when one names an unknown encoding; otherwise each field holds the value of the last pair whose key names it regardless of case, auto-restart is on only for the exact value "true", and fields no pair names keep their defaults |
| ProfileFormat.LoadSpec | TrayRunner2049/Components/Profile.cs:78-120 | loading fails on a repeated key, fails when there is no pair, and otherwise applies the pairs to a new profile |
| ProfileFormat.AutoRestartValueIsCaseSensitive | TrayRunner2049/Components/Profile.cs:113-114 | `AUTORESTART=True` turns the flag off, and `autoRestart=true` turns it on |
| ProfileFormat.CaseVariantKeys | TrayRunner2049/Components/Profile.cs:97-103 | `Name` and `name` are different dictionary keys, and the later one sets the name |
| ProfileFormat.SaveRefusesBlankName | TrayRunner2049/Components/Profile.cs:186-187 | saving fails, with the empty-name error, exactly when the name is null or white space |
| ProfileFormat.SavedKeysDistinct | TrayRunner2049/Components/Profile.cs:196-201 | the six keys a save writes are distinct, so loading the file cannot fail on a repeated key |
| ProfileFormat.SaveLoadRoundTrip | TrayRunner2049/Components/Profile.cs:186-201 | a profile with a name, storable values, and an encoding that resolves to its own web name saves and loads back to itself, with null strings as empty strings |

## Behaviour worth knowing

- Standard output, standard error and the echoed command line share one text box, so
  they share one format and one buffer. The model has one state per box.
- `ESC[38;2;300;-5;128m` is not an SGR sequence, because '-' is not a parameter
  character. It is kept as text after an ESC, so it stays buffered. Channel clamping
  applies to well-formed sequences such as `ESC[38;2;300;0;128m`.
- The box does not override `Clear`, so clearing it keeps the interpreter state. The
  model has no clear operation.
- Escape sequences other than SGR are kept as text. Because the remaining text is split
  at its last ESC, everything after such a sequence stays buffered until a later chunk
  brings another ESC (`AnsiConservation.OtherEscapeHoldsText`).

## Left out

- Win32 and Windows Forms calls: the scrollbar style bits, `SCROLLINFO`, `SuspendLayout`,
  `Invalidate`, `ScrollToCaret` after each append, and the RichTextBox selection properties. The guard's
  calls are effect values, and the appended text is a list of runs.
- The font and colour caches only memoise, so they change nothing observable. The colours
  are the functions the caches front, and fonts are their styles.
- `OnFontChanged` and `GetCurrentFormattingState`: font-object bookkeeping and a debugging getter.
- Named .NET colours are kept by name. Their RGB values are not part of the model, and
  two colours are equal only when .NET's `Color` equality says so.
- Everything in `MainWindow`, `SettingsWindow`, `Program`, `PathHelper` and
  `AssemblyHelper`: process supervision, tray handling, window layout and paths.
- File access in `FromFile` and `SaveToFile`: the existence check, the `.image` side file,
  `GetProfilesInDataPath` and `DeleteLogFile`. A profile file is its text.
- A byte-order mark at the start of a profile file.
- `Encoding.GetEncoding` is a parameter: a function from a name to the encoding's web
  name, or none when the name is unknown.
- ProfileFormat.LowerChar: `ToLowerInvariant` is modelled only for the characters whose
  lower case is an ASCII letter, namely A-Z and the Kelvin sign. Other characters are left
  as they are. Every field name is ASCII, so the field a key selects is the same as with
  the full mapping.
- ProfileFormat.SaveLoadRoundTrip: it requires the values to be storable, with no line
  break and no leading or trailing white space. Other values do not survive a save, because
  loading trims them and splits lines at breaks, so this is the program's own limit.
- IcoHeader.CreateIcon: the PNG encoding of the bitmap is an input, and its length is
  below 2^31, as any .NET array's is.
- BatchUpdate.CountStaysNatural: the nesting count is an unbounded integer. The source's
  32-bit `_updateCount` would wrap only after 2^31 nested calls, which the single
  begin/end pair per append never approaches.
- ProfileFormat.AssignAllSpec: the pairs are applied in the order they were added, which
  is taken to be the order `Dictionary<string,string>` enumerates them in. .NET does not
  document that order, so the "last pair wins" results here and in
  `ProfileFormat.CaseVariantKeys` rest on this assumption.
- AnsiProperties.SplitInvariance: Dafny's `char` is a Unicode scalar value, while a .NET
  string is a sequence of UTF-16 code units. The output is read in 1024-character blocks
  (`TrayRunner2049/Windows/MainWindow.cs:107-113`), so a chunk can end in half of a surrogate pair. Such chunkings
  cannot be written in the model, so they fall outside `SplitInvariance` and
  `AppendAllMatchesFeed`.
