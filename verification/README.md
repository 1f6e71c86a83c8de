# GDIPTV2udpxy playlist rewrite, modelled in Dafny

The repository downloads a Guangdong IPTV channel list in M3U format, whose
stream addresses use the multicast scheme `rtp://`, and rewrites it so that
every stream is fetched over HTTP through a udpxy proxy at
`10.109.60.250:4022`. The whole rewrite is `process_m3u` in
`process_m3u.py`: one global `str.replace` of `rtp://` by
`http://10.109.60.250:4022/udp/`, plus `str.count` of `rtp://` on the
original text, which is logged as the number of replacements made.

The model has two modules:

- `Substrings` (`substrings.dfy`): Python's scanning rule for
  `str.replace` and `str.count` on sequences. The text is read left to
  right. Where the pattern starts, that occurrence is taken and the scan
  resumes after it. Anywhere else one element is copied. It gives
  `ReplaceAll` and `CountOcc`. They are tied to independent reference
  definitions: `Contains` (some index where the pattern occurs) and
  `NaiveCount` (the number of such indices). It also gives the general
  conditions under which a replacement leaves no occurrence behind
  (`NoBoundaryMatch`) and under which the count misses no occurrence
  (`NoSelfOverlap`).
- `ProcessM3u` (`process_m3u.dfy`): the two constants of the source, the
  rewrite `Process`, the method `ProcessAndCount` that also returns the
  logged count, and the facts about these constants that the properties
  rest on.

## Notes on the source

- The rewrite acts on the whole playlist text, not only on address lines. An
  `rtp://` inside a channel name would be rewritten too.
- The comment at `process_m3u.py:26` names the target as
  `http://10.109.60.250:4022/`. The code at line 27 appends `udp/`, and the
  model uses the code's 30-character prefix.

## Model

| member | source | states |
|---|---|---|
| ProcessM3u.Process | process_m3u.py:26-27 | The result contains no `rtp://`, so all occurrences are replaced. Its length is the input length plus 24 for each counted occurrence. A text without `rtp://` comes back unchanged. |
| ProcessM3u.ProcessAndCount | process_m3u.py:23-33 | Defined for every input string (no precondition). Returns the rewritten text and the replacement count. The count is `content.count('rtp://')` on the original text. |
| Substrings.ReplaceCounting | process_m3u.py:27-31 | A single scan rewrites the text and counts each substitution it performs. Its text is `str.replace`'s result and its count is `str.count` on the original, so the logged count equals the substitutions made. |
| ProcessM3u.ProcessUnchangedIff | process_m3u.py:27 | The output equals the input if and only if the input contains no `rtp://`. |
| ProcessM3u.NoReplacementIffUnchanged | process_m3u.py:27-31 | The logged count is zero if and only if the output equals the input. |
| ProcessM3u.ProcessIdempotent | process_m3u.py:27 | Rewriting the rewritten playlist again changes nothing. |
| ProcessM3u.CountIsEveryOccurrence | process_m3u.py:30 | The logged count equals the number of positions where `rtp://` starts, so no occurrence is missed or counted twice. |
| ProcessM3u.SchemeNoSelfOverlap | process_m3u.py:27 | `rtp://` is six characters long and no two of its occurrences can overlap. |
| ProcessM3u.ProxyHasNoScheme | process_m3u.py:27 | The proxy prefix is 30 characters long and contains no `rtp://`. |
| ProcessM3u.ProxyBoundarySafe | process_m3u.py:27 | Inserting the proxy prefix into any text cannot form a new `rtp://` across either of its edges. |
| ProcessM3u.ProcessSchemePrefix | process_m3u.py:27 | `rtp://` followed by any rest becomes the proxy prefix followed by the rewritten rest. |
| ProcessM3u.ProcessAddress | process_m3u.py:27 | An address `rtp://H:P/path` becomes the proxy prefix followed by `H:P/path` verbatim. Only the scheme token is substituted. |
| ProcessM3u.ProcessVerbatimBefore | process_m3u.py:27 | Text `u` without `rtp://` before an `rtp://` is kept verbatim: `u + rtp:// + v` becomes `u`, the proxy prefix, then the rewritten `v`. |
| ProcessM3u.ProcessExampleAddress | process_m3u.py:26-27 | `rtp://239.1.1.1:1234/x` becomes `http://10.109.60.250:4022/udp/239.1.1.1:1234/x`. |
| ProcessM3u.ProcessAcrossNewline | process_m3u.py:27 | Rewriting `a + "\n" + b` gives the rewritten `a`, a newline, then the rewritten `b`. |
| ProcessM3u.ProcessLineByLine | process_m3u.py:27 | Rewriting a playlist joined from lines equals joining its lines after rewriting each one. |
| Substrings.ReplaceAllLength | process_m3u.py:27-30 | `str.replace` changes the length by the number of occurrences `str.count` finds, times the length of `rep` minus the length of `pat`. |
| Substrings.ReplaceAllAbsent | process_m3u.py:27 | Replacing in a text that contains no pattern returns the text unchanged. |
| Substrings.CountOccPositiveIffContains | process_m3u.py:30 | `str.count` is positive if and only if the pattern occurs in the text. |
| Substrings.ReplaceAllRemovesAll | process_m3u.py:27 | When `NoBoundaryMatch` holds, the replacement leaves no occurrence of the pattern in its output. |
| Substrings.ReplaceAllConcat | process_m3u.py:27 | If no occurrence straddles the join, replacing in `a + b` is replacing in `a` then in `b`. The text between occurrences is copied verbatim. |
| Substrings.ReplaceAllAcrossSeparator | process_m3u.py:27 | A separator character that is not in the pattern splits the replacement into independent halves. |
| Substrings.CountOccIsNaiveCount | process_m3u.py:30 | For a pattern that cannot overlap itself, `str.count` equals the number of indices where the pattern occurs. |
| Substrings.CountOcc | process_m3u.py:30 | `str.count` times the pattern length is at most the text length. |

## Left out

- `download_m3u` (`process_m3u.py:11-21`) is an HTTP GET with a 30-second timeout. This is network I/O, so the downloaded text is the parameter `content`.
- `save_m3u` (`process_m3u.py:38-46`) writes a file. This is filesystem I/O.
- `main` (`process_m3u.py:48-63`) only chains download, process and save.
- The logging configuration and every `logging` call are side effects. The logged replacement count is returned by `ProcessAndCount` instead.
- The `try`/`except` blocks in `process_m3u` only log and re-raise. `str.replace` and `str.count` on a string cannot fail, so the model has no error path. Totality is stated by `ProcessAndCount` having no precondition.
- Python's behaviour for an empty pattern is not modelled: `ReplaceAll` and `CountOcc` require a non-empty pattern. The source only uses the fixed non-empty pattern `rtp://`.
- Character encoding is left out. Text is modelled as a sequence of Unicode characters, as a Python `str` is, so UTF-8 decoding of the download is not modelled.
