# RS2IPParser log filter, modelled in Dafny

`parse.py` scans a Rising Storm 2: Vietnam server log, line by line. A line is counted under
one address only: the last dotted quad on it that follows a whitespace character. The line must
not also match `VALID_IP` or `ADMIN_IP`, that is, carry a `PlayerIP:` field, or a `RemoteAddr:`
field after `admin login`. An admin login without such a field is counted. An address that only
ever appears earlier on a line is never counted. The script then drops every address captured by
`VALID_IP`, or by `ADMIN_IP` on a line with no player field. It writes the rest to a CSV file, each
with the number of lines counted under it.

This project models the part of `main` that runs once the log is read:

- **The three line patterns** (module `Patterns`, `patterns.dfy`):
  - `IP_PATTERN` is a whitespace-preceded dotted quad.
  - `VALID_IP` is the dotted quad of a `PlayerIP:` field.
  - `ADMIN_IP` is the dotted quad of a `RemoteAddr:` field that follows `admin login`.

  Each is written as a string function that reproduces what `re.search` does with these patterns:
  - The leftmost start position wins.
  - At that start, the greedy leading `.*` backtracks from the end of the line. So the capture is
    the last candidate on that line, not the first.
  - `\d{1,3}\.` reads a maximal run of one to three digits, and the final `\d{1,3}` keeps at most
    three digits.

  A reader that goes group by group is kept as the reference for the scanner, and a lemma proves
  the two agree.
- **The single pass over the lines** (module `Aggregate`, `classify.dfy`):
  - `Scan` is the loop that updates `ip_dict`, `valid_ips` and `admin_ips` in place; `FileLine`
    is its body for one line.
  - It is proved against `TallyOf`, a fold of the per-line verdicts.
  - `Classify` gives the verdict in the code's own order: `VALID_IP` is tried first, and `ADMIN_IP`
    only when it fails.
- **The filter and the CSV output** (module `Report`, `report.dfy`):
  - `DropTrusted` is the two `pop` loops.
  - `WriteCsv` is the writing loop: the header, then one `ip,count` row per remaining entry.
  - `Run` chains the pass, the filter and the writer.
- **Worked examples** (module `Scenarios`, `scenarios.dfy`):
  - a connection line, a player line and an admin login line, each with its verdict;
  - a line that starts with a date stamp, and a bare dotted quad that is no match until a space
    precedes it;
  - a five-line log, in which the filter drops an address that was counted but also named by a
    player line, with the exact CSV text it produces.

Two behaviours of the code are worth knowing, and the model follows the code in both:

- **A player field wins over an admin login.** When a line holds both a `PlayerIP:` field and
  `admin login … RemoteAddr:`, the line goes to `valid_ips`. `ADMIN_IP` is never tried on it
  (`Aggregate.ClassifyByPrecedence`).
- **The two trusted sets can share addresses.** `valid_ips` and `admin_ips` are not disjoint:
  one address can appear both as a player and in an admin login
  (`Scenarios.TrustedSetsMayOverlap`). The filter removes such an address once; the second
  removal is a no-op.

## Model

| member | source | states |
|---|---|---|
| Patterns.IsSpace | parse.py:24-26 | `\s` is the set of whitespace characters Python's `re` recognises in text decoded as Latin-1: space, tab, newline, carriage return, vertical tab, form feed, \x1c-\x1f, NEL and NBSP. It has no contract of its own. |
| Patterns.DigitRunSpec | parse.py:24 | The digit run at a position covers only digits and stops at a non-digit or at the end of the line. |
| Patterns.GroupDot | parse.py:24 | `\d{1,3}\.` at a position, when it matches, ends two to four characters later, and its last character is a dot. |
| Patterns.GroupDotOctet | parse.py:24 | The digits that `\d{1,3}\.` consumes form a group of one to three digits. |
| Patterns.QuadEndAgrees | parse.py:24 | The character-by-character scanner for `\d{1,3}(\.\d{1,3}){3}` gives the same end as reading it group by group. |
| Patterns.QuadAt | parse.py:24-26 | A dotted quad read at a position is a prefix of the rest of the line. |
| Patterns.QuadAtShape | parse.py:24-26 | A dotted quad read at a position is four groups of one to three digits joined by dots, with no range check. |
| Patterns.QuadAtLongest | parse.py:24-26 | When some dotted quad starts at a position, the reader matches there and takes at least that much: the quantifiers are greedy. |
| Patterns.TruncatedFinalGroup | parse.py:24 | In ` 1.2.3.4567` the capture is `1.2.3.456`: the last group keeps three digits. |
| Patterns.LineEnd | parse.py:24 | The end of the line segment from a position is the next newline, or the end of the text. |
| Patterns.LineEndSpec | parse.py:24 | No newline lies between a position and its line end, because `.` does not match a newline. |
| Patterns.LastWhere | parse.py:24-26 | Greedy backtracking of `.*` over a window finds the greatest position at which the rest matches, or reports that none does. |
| Patterns.SearchFrom | parse.py:24-26 | `re.search` finds the leftmost start that matches. No earlier line segment holds a match, and no later position in the match's own window matches. When nothing matches, no position of the text does. |
| Patterns.WindowEndStable | parse.py:24-26 | Every start inside one line segment sees the same window, so moving the start within a line does not change the candidates. |
| Patterns.IpAfter | parse.py:24-25 | `.*marker\s(Q).*` matches a text exactly when `marker`, a whitespace character and a dotted quad occur somewhere in it. What it captures is a dotted quad. |
| Patterns.GenericIp | parse.py:24 | `IP_PATTERN` matches a line exactly when some whitespace character is followed by a dotted quad. Its capture is a dotted quad. `Patterns.IpAfterTakesLast` says which quad. |
| Patterns.PlayerIp | parse.py:25 | `VALID_IP` matches a line exactly when `PlayerIP:`, a whitespace character and a dotted quad occur in it. Its capture is a dotted quad. `Patterns.IpAfterTakesLast` says which field. |
| Patterns.AdminIp | parse.py:26 | A match of `ADMIN_IP` captures the dotted quad of a `RemoteAddr:` field that comes after an `admin login`. `Patterns.AdminIpCharacterized` gives the converse on one line. |
| Patterns.AdminRemote | parse.py:26 | The `RemoteAddr:` position that `ADMIN_IP` captures from carries `RemoteAddr:`, a whitespace character and a dotted quad, and it lies after an `admin login`. |
| Patterns.OneLineWindow | parse.py:46 | On a line from file iteration, the window of every start runs to the end of the line. |
| Patterns.IpAfterTakesLast | parse.py:24-25 | On one line, `IP_PATTERN` and `VALID_IP` match exactly when some field matches. They capture the dotted quad of the last matching field. |
| Patterns.PlayerLineIsGeneric | parse.py:24-25 | Every line that `VALID_IP` matches is also matched by `IP_PATTERN`. The outer test never hides a player line. |
| Patterns.AdminLineIsGeneric | parse.py:24-26 | Every line that `ADMIN_IP` matches is also matched by `IP_PATTERN`. |
| Patterns.AdminIpCharacterized | parse.py:26 | On one line, `ADMIN_IP` matches exactly when some `RemoteAddr:` field comes after an `admin login`. It then captures the last `RemoteAddr:` field. |
| Patterns.AdminIpMatches | parse.py:26 | On one line, when `ADMIN_IP` fails, no `RemoteAddr:` field follows any `admin login`. |
| Patterns.AdminIpTakesLast | parse.py:26 | On one line, a match of `ADMIN_IP` captures from the last `RemoteAddr:` field. |
| Patterns.RemoteAfterLoginIsLast | parse.py:26 | On one line, the second `.*` of `ADMIN_IP` backtracks to the last `RemoteAddr:` field of the line. |
| Patterns.GenericTakesLaterOfTwo | parse.py:24 | In `a 1.1.1.1 2.2.2.2`, `IP_PATTERN` captures the later address, `2.2.2.2`. `Patterns.IpAfterTakesLast` gives the general case: the last whitespace-preceded quad of a line. |
| Aggregate.Classify | parse.py:53-69 | The branches of the loop body for one line, as a verdict. It has no contract of its own; `Aggregate.ClassifyByPrecedence` states its precedence, and `Aggregate.VerdictShape` the shape of its IP. |
| Aggregate.ClassifyByPrecedence | parse.py:53-69 | A line's verdict is decided by precedence alone: a player field first, then an admin login, then a generic address, otherwise the line is skipped. |
| Aggregate.VerdictShape | parse.py:53-69 | Every IP a line is filed under is a dotted quad. |
| Aggregate.TallyOf | parse.py:37-41 | The map and sets after filing verdicts in order, starting from the empty `ip_dict`, `valid_ips` and `admin_ips`. It has no contract of its own; `Aggregate.TallyCounts`, `Aggregate.TallySets` and `Aggregate.TallyTotal` state what it holds. |
| Aggregate.Record | parse.py:61-69 | Filing one line changes at most one of the map and the two sets. A skipped line changes nothing. Keys and set members are never lost. |
| Aggregate.TallyCounts | parse.py:68-69 | `ip_dict` holds exactly the IPs of counted lines. Each value is the number of counted lines with that IP. |
| Aggregate.TallySets | parse.py:55-66 | `valid_ips` holds exactly the IPs of player lines, and `admin_ips` exactly the IPs of admin login lines. |
| Aggregate.TotalRemove | parse.py:69 | The sum of the counts does not depend on which key is taken first. |
| Aggregate.TotalIncrement | parse.py:69 | `ip_dict[ip] += 1` raises the sum of the counts by one. |
| Aggregate.CountOccurrences | parse.py:46-69 | The number of counted lines is at most the number of lines. |
| Aggregate.TallyTotal | parse.py:46-69 | The counts add up to the number of counted lines. |
| Aggregate.FileLine | parse.py:53-69 | The loop body for one line leaves the collections as filing that line's verdict does: at most one of them changes, and only as `Aggregate.Record` says. |
| Aggregate.Scan | parse.py:46-71 | After the loop, the map and sets are those of filing every line's verdict (`Aggregate.Verdicts`, one per line) in order. The count and membership characterizations hold for the result. |
| Report.FilterIdempotent | parse.py:79-89 | Removing the trusted keys a second time leaves the map as it was. |
| Report.DropTrusted | parse.py:79-89 | The keys left are those of the count map that are in neither trusted set, with their counts unchanged. Absent keys are passed over. |
| Report.Suspicious | parse.py:79-89 | The filtered map holds only keys of the count map. |
| Report.SuspiciousCharacterized | parse.py:79-89 | An IP is reported exactly when some counted line has it and no player line or admin line does. Its number is the count of those lines, which is positive. |
| Report.CountPositive | parse.py:69 | A verdict occurs in the log exactly when its count is positive. |
| Report.SuspiciousShape | parse.py:79-89 | Every reported IP is a dotted quad. |
| Report.DigitChar | parse.py:98 | A digit below ten is rendered as the digit character with that value. |
| Report.Decimal | parse.py:98 | A count is rendered as a non-empty string of digits with no leading zero. |
| Report.DecimalRoundTrip | parse.py:98 | Reading back the digits of a rendered count gives the count. |
| Report.Row | parse.py:98 | The text `ip,count` and a newline for one entry. It has no contract of its own; `Report.RowRoundTrip` shows it can be read back, and `Report.RowNewline` shows it is one line. |
| Report.RowRoundTrip | parse.py:98 | A row `ip,count` parses back into the same IP and count whenever the IP holds no comma. |
| Report.QuadHasNoSeparators | parse.py:98 | A dotted quad holds only digits and dots, so no comma or newline. Rows of reported IPs are therefore unambiguous. |
| Report.EnumerationLength | parse.py:97 | A listing of every key of the map, each exactly once, has one entry per key. |
| Report.RowNewline | parse.py:98 | A row ends with the only newline it contains. |
| Report.RowsLines | parse.py:97-98 | The rows hold exactly one newline per listed key. |
| Report.HeaderLine | parse.py:96 | The header is one line. |
| Report.WriteCsv | parse.py:95-98 | The output is the header `IP,matches` followed by the row of each entry exactly once, in some order of the keys. |
| Report.CsvLines | parse.py:96-98 | The CSV text has one line for the header plus one line per entry. |
| Report.Run | parse.py:36-98 | The CSV text for a log is the header and one row per reported IP, with 1 + (number reported) lines. |
| Report.ReportLines | parse.py:96-98 | Any CSV text written from a log's reported IPs has exactly one more line than there are reported IPs. |
| Report.UniformTally | parse.py:46-69 | Lines that are all counted under one IP leave that IP with the number of lines and both trusted sets empty. |
| Report.RepeatedLine | parse.py:11-12 | A log of n copies of a counted line reports that line's IP with count n. |
| Scenarios.AbsentMarker | parse.py:25 | A text in which no character starts the marker, such as `PlayerIP:`, gets no match of the marker's pattern. |
| Scenarios.AbsentLogin | parse.py:26 | A text without the letter `a` gets no `ADMIN_IP` match. |
| Scenarios.AdminIpFromFields | parse.py:26 | A login followed by a last `RemoteAddr:` field yields that field's address. |
| Scenarios.ClientLineVerdict | parse.py:53-69 | `Client 10.0.0.5` is counted under `10.0.0.5`. |
| Scenarios.StampLineGeneric | parse.py:24 | In `2024.01.01 10.0.0.5`, `IP_PATTERN` passes over the leading date stamp, which follows no whitespace, and captures `10.0.0.5`. |
| Scenarios.BareStampUnmatched | parse.py:24 | `24.01.01.12` is a dotted quad, yet `IP_PATTERN` does not match it because no whitespace precedes it. With one space in front it matches. |
| Scenarios.PlayerLineVerdict | parse.py:55-66 | `PlayerIP: 1.2.3.4` is filed as a valid player IP. |
| Scenarios.AdminLineVerdict | parse.py:57-63 | `admin login RemoteAddr: 1.2.3.4` is filed as an admin IP. |
| Scenarios.TrustedSetsMayOverlap | parse.py:55-66 | After a player line and an admin line with the same address, that address is in both trusted sets. |
| Scenarios.ReturningLineVerdict | parse.py:53-69 | `Client 1.2.3.4` is counted under `1.2.3.4`. |
| Scenarios.ExampleFilter | parse.py:79-89 | Two counted lines for 10.0.0.5, one counted line for 1.2.3.4, then a player line and an admin line for 1.2.3.4: the pass counts both addresses, and the filter drops `1.2.3.4`, leaving only `10.0.0.5` with count 2. |
| Scenarios.ExampleSuspicious | parse.py:46-89 | The five-line example log counts `1.2.3.4` but reports only `10.0.0.5`, with count 2. |
| Scenarios.ExampleReport | parse.py:95-98 | The CSV text written for the example log is exactly `IP,matches\n10.0.0.5,2\n`. |

## Left out

- Command-line parsing (`parse_args`, parse.py:29-33) is not modelled. It only wraps a library.
- Opening and reading the file is not modelled: the latin-1 decoding and the newline translation of text mode. The lines are a parameter, as file iteration yields them. The CSV is returned as a string rather than written to `<file>.csv`, and that output file name is not modelled.
- Progress output and byte counting (parse.py:44, 47-51, 71-75) are console-only display and are left out. So are the summary and status prints (parse.py:43, 76-78, 93-94, 100).
- The order of the CSV rows is not modelled. Python writes them in dict insertion order. `Report.WriteCsv` and `Report.Run` state the output for some order that lists each remaining key exactly once.
- The order in which the sets are iterated by the two `pop` loops is not modelled. The loops pick keys in an arbitrary order, and the result does not depend on it.
- `Patterns.IsSpace` is Python's `\s` restricted to the characters that text decoded as Latin-1 can hold. Code points above U+00FF cannot occur.
- `Patterns.IsDigit` is Python's `\d` restricted the same way. Above U+00FF, `\d` also matches other scripts' decimal digits, but decoded Latin-1 text holds none.
- Writing the CSV file is not modelled. parse.py:95 opens it in text mode with the platform's default encoding, and text mode turns each `\n` into the platform's line separator (`\r\n` on Windows). `Report.Run` returns the text with `\n` line ends, before that translation.
- `Patterns.IpAfterTakesLast`: the matchers are defined for any string, but this "last field" characterization is stated only for lines in which a newline can appear only as the last character (`OneLine`), which is what file iteration yields. `Patterns.AdminIpCharacterized` has the same restriction.
