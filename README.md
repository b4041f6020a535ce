# m3u8 link processor — a Dafny model

m3u8.py reads a text file of Brightcove tracking URLs, each followed by a
human-readable name. For every well-formed line it pulls the `.m3u8`
manifest URL out of the tracking URL's `media_url` query parameter. It then
hands that URL, together with a sanitized output name, to an ffmpeg-based
converter.

This project models the program's decision-making core:

- `sanitize_filename`, in `sanitize.dfy` (module `Sanitizer`). It strips
  the label, deletes every U+0020 space and deletes the reserved characters
  `<>:"/\|?*`. The `str` primitives it uses (`strip()` and character
  deletion) live in `text.dfy` (module `Text`), each with its own
  specification.
- `decode_brightcove_url`, in `decode.dfy` (module `Decoder`). It is a
  first-match lookup of `media_url` over the parsed query pairs. A value
  that is missing or empty gives `None`, and so does a parser that raises.
- The per-line loop of `process_links_from_file`, in `runner.dfy` (module
  `Runner`):
  - Each line is classified as blank or comment, malformed, or entry.
  - Each line gets an outcome: skipped, invalid, bad URL, or convert.
  - The method `ProcessLinks` is the loop itself. Where the source calls
    the converter, it appends a `Dispatch(lineNo, manifestUrl,
    outputName)`.
  - The list of dispatches is what the loop does, as seen from outside.

Python's `urlparse` and `parse_qs` are a parameter
`parse: string -> Option<Query>`. It returns the query's key/value pairs in
order, or `None` when parsing raises. Whitespace is Python's
`str.isspace()` set, written out in `Text.IsWs`.

## Model

| member | source | states |
|---|---|---|
| Text.Strip | m3u8.py:86 | `strip()` returns a contiguous piece of its input that neither starts nor ends with whitespace, and every character it removes, at either end, is whitespace; it returns the input unchanged exactly when the input is already stripped |
| Text.StripIsSubseq | m3u8.py:107 | stripping a line only deletes characters |
| Text.Without | m3u8.py:86-88 | deleting a set of characters leaves none of them in the result |
| Text.WithoutIsSubseq | m3u8.py:86-88 | deletion keeps the remaining characters in their original order |
| Text.WithoutKeepsCounts | m3u8.py:88 | every character not being deleted keeps exactly its number of occurrences |
| Text.WithoutSpaceJoins | m3u8.py:86 | `replace(" ", "")` joins two space-free words separated by one space |
| Sanitizer.Sanitize | m3u8.py:76-89 | the sanitized name contains no space and no character of `<>:"/\|?*` |
| Sanitizer.SanitizeIsSubseq | m3u8.py:86-88 | sanitizing only deletes characters from the raw name and keeps the rest in order |
| Sanitizer.SanitizeKeepsSafe | m3u8.py:86-88 | every character other than the space and the reserved ones keeps exactly its number of occurrences in the stripped name |
| Sanitizer.SanitizeNoLonger | m3u8.py:86-88 | the sanitized name is never longer than the raw name |
| Sanitizer.SanitizeAllUnsafe | m3u8.py:86-89 | a name made only of spaces and reserved characters sanitizes to the empty string |
| Sanitizer.SanitizeFixedPoint | m3u8.py:86-88 | a name is left unchanged if and only if it is stripped and contains no space or reserved character |
| Sanitizer.SanitizeIdempotentIff | m3u8.py:86-88 | sanitizing twice gives the same result as sanitizing once if and only if the first result is stripped |
| Sanitizer.SanitizeIdempotent | m3u8.py:86-88 | sanitizing is idempotent when the name's only whitespace is U+0020 |
| Sanitizer.SanitizeOfStripped | m3u8.py:86 | sanitizing depends only on the stripped name |
| Sanitizer.SanitizeJoinsWords | m3u8.py:86-88 | two safe words separated by one space sanitize to the two words joined |
| Sanitizer.SanitizeEpisodeExample | m3u8.py:86-88 | `Episode 1` sanitizes to `Episode1` |
| Sanitizer.SanitizeKeepsInnerWs | m3u8.py:86-88 | a tab or other non-space whitespace inside the name survives sanitizing |
| Sanitizer.SanitizeNotIdempotent | m3u8.py:86-88 | that inner whitespace can end up at the edge, so a second sanitize removes it: sanitizing is not idempotent in general |
| Sanitizer.SanitizeKeepsWsBetweenReserved | m3u8.py:86-88 | a name of reserved characters with a tab between them sanitizes to the tab, not to the empty string |
| Decoder.FirstIndex | m3u8.py:64 | the position of the first pair with the key, or none if no pair has it |
| Decoder.DecodeQuery | m3u8.py:64-69 | the result is some value if and only if the first `media_url` pair exists and its value is non-empty; that value is then the first pair's value |
| Decoder.DecodeBrightcoveUrl | m3u8.py:50-73 | a parser that raises gives `None`; otherwise the result is the lookup over the parsed pairs, and it is never the empty string |
| Decoder.DecodeQueryFirstWins | m3u8.py:64 | once `media_url` has occurred, later pairs never change the result |
| Decoder.DecodeQueryIgnoresOtherKeys | m3u8.py:64 | inserting pairs with other keys anywhere in the query never changes the result |
| Decoder.DecodeQueryCases | m3u8.py:64-69 | `media_url=v` as the first pair decodes to `v` exactly when `v` is non-empty |
| Runner.SplitAtFirstSpace | m3u8.py:112-113 | `split(" ", 1)` yields two parts if and only if the line contains a space; the head is space-free and head + space + tail gives back the line |
| Runner.SplitAtFirstSpaceUnique | m3u8.py:112 | this is the only way to split a line into a space-free head, a space and a tail |
| Runner.Classify | m3u8.py:107-117 | a line is blank or comment exactly when the stripped line is empty or starts with `#`; it is malformed exactly when it is neither and has no space; an entry's URL and name are both non-empty and rebuild the stripped line |
| Runner.Handle | m3u8.py:107-128 | only a line that is neither blank, comment nor malformed can reach the converter; when it does, the manifest URL is non-empty and the output name is safe characters followed by `感謝祭Voice` |
| Runner.HandleEntry | m3u8.py:112-125 | the entry `url name` is decoded with `url` and converted under `sanitize(name) + "感謝祭Voice"` |
| Runner.HandleBeforeDecoder | m3u8.py:107-115 | blank, comment and malformed lines never reach the decoder or the converter |
| Runner.TabSeparatedIsInvalid | m3u8.py:112-115 | a URL and name separated by a tab are rejected as an invalid line |
| Runner.ReservedNameGivesSuffix | m3u8.py:118-125 | a name made only of reserved characters is still converted, under the bare suffix |
| Runner.EpisodeExample | m3u8.py:112-125 | `url Episode 1` is converted as `Episode1感謝祭Voice` |
| Runner.Dispatches | m3u8.py:106 | every dispatch line number is a 1-based line of the file, and line numbers strictly increase, so dispatches follow file order with at most one per line |
| Runner.DispatchesAppend | m3u8.py:127-128 | one more line adds its own dispatch at the end if it is converted, and adds nothing otherwise |
| Runner.DispatchesSound | m3u8.py:118-128 | every dispatch comes from a converted line, with that line's manifest URL and output name |
| Runner.DispatchesComplete | m3u8.py:118-128 | every converted line yields its dispatch |
| Runner.ProcessLinks | m3u8.py:106-128 | the loop gives every line the outcome `Handle` prescribes and makes exactly the dispatches those outcomes call for |

## Left out

- `convert_m3u8_to_mp3` (m3u8.py:6-47) runs ffmpeg and writes files. It is an external process, so each call to it is recorded as a `Dispatch` instead.
- Runner.ProcessLinks: the dispatch list assumes that every converter call returns. When ffmpeg is missing, the converter calls `exit(1)` (m3u8.py:43-45) and the whole run ends at the first line it is called for. No later line is handled, and that run is not modelled.
- The file handling of `process_links_from_file` (m3u8.py:99-104) is left out: the existence check, `exit(1)` and reading the file. The lines are given as a sequence.
- The command-line entry point (m3u8.py:131-141) is I/O only.
- The text of the printed messages is left out. The outcomes `Invalid` and `BadUrl` record which message a line gets, not its wording.
- Decoder.DecodeBrightcoveUrl: the parsing by `urlparse` and `parse_qs` is the parameter `parse`. Percent-decoding, `+` to space, and the dropping of blank values by `parse_qs` are not modelled. Any exception raised there becomes `None`.
- Runner.ProcessLinks: the loop's own `if not m3u8_url` check (m3u8.py:119) is not a separate branch. The decoder never returns an empty string, so the check comes down to whether the result is `None`.
- Python strings may contain lone surrogate code points, and Dafny's `char` cannot represent them.

Where the code's docstring and the code disagree, the model follows the code:

- `sanitize_filename` deletes only U+0020 spaces from the interior and inserts no underscores. Tabs and other whitespace inside a name survive; see `Sanitizer.SanitizeKeepsInnerWs`.
- As a result, sanitizing is not idempotent in general; see `Sanitizer.SanitizeNotIdempotent`.
- A line is split at its first U+0020 only, not at the first run of whitespace. The name part may therefore begin with further spaces, which sanitizing then removes.
