# devopsfetch core, modelled in Dafny

`devopsfetch` is a command-line tool that reports on a Linux host:
- listening ports and their processes;
- running Docker containers;
- the virtual hosts declared in the Nginx configuration;
- local users and their last login;
- syslog activity inside a time window.

It prints each report through one table renderer. This project models, in Dafny, the list and string processing behind those reports, all of which lives in `fetchy/devopsfetch.py`:

- **Nginx block parser** (module `Nginx`): `get_nginx_info`.
  - It is a line-by-line machine with an "in a server block" flag and three accumulators: `server_name`, `listen` and `root`.
  - The four regular expressions are hand-written string predicates. `\s` is the set of characters Python's `str.isspace` accepts. `.` stops only at `\n`. `(.*);` captures up to the last semicolon before the first newline.
  - `NginxProperties` proves that the machine agrees with a definition of the output in terms of the file's block structure. For every closing line that is inside a block, that definition takes the latest `server {` line before it and the last value of each directive since then.
- **Time-window filter** (module `TimeWindow`): `get_activities_in_time_range`.
  - The range is split on `,`. Each bound is parsed as `%Y-%m-%d %H:%M:%S` after stripping.
  - Each syslog line's first three words are parsed as `%b %d %H:%M:%S` with the default year 1900. The start bound's year is then substituted.
  - Lines inside the inclusive window are kept, as the written timestamp and the stripped line.
  - Timestamps are tuples of naturals, compared field by field.
  - `TimeWindowProperties` proves membership, order, the placeholder case, and the round trip between the written timestamp and the bound parser.
- **Collectors** (module `Collectors`): `get_active_ports`, `get_docker_info` and `get_user_info`. They work over abstract inputs:
  - the socket table;
  - a process lookup whose `None` result stands for `NoSuchProcess`. Its argument `None` (a socket with no known pid) stands for the current process, as in `psutil.Process(None)`;
  - the container list with each image's tags, or `None` for a Docker error;
  - the password entries;
  - the `last` lookup as a function of the user name.

  `CollectorProperties` proves membership, filtering and order.
- **Table renderer** (module `Table`): the width and row logic of `print_table`.
  - Rows are kept in an `array<Row>`, and a `Row` is the dictionary's items in insertion order. The renderer rewrites the long-text cells of shown rows in place.
  - `textwrap.wrap(text, width=80)` is a function parameter.
  - The result is the header, the widths set on the table and the rows added to it. The text layout is not modelled.
  - `TableProperties` proves what the widths are and which rows are shown and how.

Each source function is a `method` with the source's loop. It is proved equal to a specification function, and the lemmas state what that function promises. Operating-system, Docker and subprocess calls are parameters of the methods.

Behaviour of the code worth noting:
- A block is dropped unless BOTH `server_name` and `listen` are set and non-empty, not only when both are missing.
- Any line whose first non-blank character is `}` ends the server block, so the closing brace of a nested `location` block ends it too.
- A Docker error while reading one container's image abandons the whole container listing. It does not drop only that container.

## Model

| member | source | states |
|---|---|---|
| Nginx.GetNginxInfo | fetchy/devopsfetch.py:54-107 | The method returns `NginxInfo`: `[]` when the file is missing or unreadable; otherwise the wanted records in file order, or the placeholder alone. |
| Nginx.NginxInfo | fetchy/devopsfetch.py:56-107 | A missing file gives `[]`, a readable file never gives `[]`, and a placeholder entry appears only as the whole result. |
| Nginx.ScanLines | fetchy/devopsfetch.py:68-100 | The loop's list is the records the line machine emits, filtered by domain, in order. |
| Nginx.ReadDirectives | fetchy/devopsfetch.py:90-100 | Each directive the line sets replaces the value held so far. The others keep theirs. |
| Nginx.Directive | fetchy/devopsfetch.py:90-100 | A capture never contains a newline. There is one only when the line's first word is the directive name followed by a blank. |
| Nginx.DirectiveCaptures | fetchy/devopsfetch.py:90-100 | A directive matches exactly when the name is there and a semicolon follows it on the same line. The capture is then the text from the first non-blank character after the name up to the LAST such semicolon, which ends it; no semicolon follows on that line. |
| Nginx.Capture | fetchy/devopsfetch.py:90-100 | `(.*);` matches exactly when the text before the first newline holds a semicolon. The group is the text up to the last one. |
| Nginx.DirectiveKeepsInnerSemicolons | fetchy/devopsfetch.py:90-100 | On `  root /a;b;c` the capture is `/a;b`: the value keeps its inner semicolons and loses the text after the last. |
| Nginx.Emit | fetchy/devopsfetch.py:77-83 | A record is made exactly when `server_name` and `listen` are both non-empty. It carries those two values, and the root value when that is non-empty or "Not specified" otherwise. All its fields are non-empty. |
| Nginx.RunFrom | fetchy/devopsfetch.py:68-100 | Every record the machine emits has a non-empty name, listen and root. |
| Nginx.OpenIsNotClose | fetchy/devopsfetch.py:69-76 | A `server {` line is never a closing line. |
| Nginx.BraceLineHasNoDirective | fetchy/devopsfetch.py:69-100 | A `server {` line or a closing line sets none of the three directives. |
| NginxProperties.ServerOpenOfParts | fetchy/devopsfetch.py:69 | Any blanks, `server`, any blanks and `{` open a block, whatever follows. |
| NginxProperties.ServerOpenParts | fetchy/devopsfetch.py:69 | Every line that opens a block has that shape. |
| NginxProperties.BlockCloseOfParts | fetchy/devopsfetch.py:76 | Any blanks and `}` close a block, whatever follows. |
| NginxProperties.BlockCloseParts | fetchy/devopsfetch.py:76 | Every closing line has that shape. |
| NginxProperties.KeywordOfParts | fetchy/devopsfetch.py:90-100 | Any blanks, the directive name and at least one blank make the keyword match. The capture reads what follows those blanks. |
| NginxProperties.KeywordParts | fetchy/devopsfetch.py:90-100 | Every line where the keyword matches has that shape. The text the capture reads starts with a non-blank character. |
| NginxProperties.StepCases | fetchy/devopsfetch.py:69-100 | One line keeps the accumulators clear outside a block. The machine is in a block after the line exactly when the line opens one, or it was in one and the line does not close it. A record comes out exactly when a closing line ends a block with a non-empty name and listen, and it is that block's record. |
| Common.ContainsAt | fetchy/devopsfetch.py:84 | `domain in server_name` holds whenever the domain occurs at some position of the name. |
| Common.ContainsWitness | fetchy/devopsfetch.py:84 | When it holds, the domain occurs at some position of the name. |
| Nginx.ListingAppend | fetchy/devopsfetch.py:84-85 | The domain filter distributes over concatenation, so records keep file order. |
| NginxProperties.LastMatchIsLast | fetchy/devopsfetch.py:90-100 | The value held is that of the last matching line since the block opened, or none when no line matched. |
| NginxProperties.RunMatchesBlocks | fetchy/devopsfetch.py:68-100 | After any prefix of the file, the state and the records equal the block-structure definition: the latest open block, the last value of each directive since then, and one record per closing line inside a block. |
| NginxProperties.RecordsMatchBlocks | fetchy/devopsfetch.py:76-85 | The records are exactly those of the closing lines inside a block, in file order. |
| NginxProperties.RunFromAppend | fetchy/devopsfetch.py:68-100 | Running two parts of a file in sequence is running their concatenation. |
| NginxProperties.OpenLineResets | fetchy/devopsfetch.py:69-73 | A `server {` line resets all three accumulators and emits nothing, whatever the state. |
| NginxProperties.ServerLineDiscardsUnfinishedBlock | fetchy/devopsfetch.py:69-73 | From a `server {` line on, the records are independent of everything before it: an unfinished block never reaches a later record. |
| NginxProperties.OutsideStaysOutside | fetchy/devopsfetch.py:75-100 | Lines without a `server {` line leave the machine outside, with no record. |
| NginxProperties.LinesOutsideBlocksIgnored | fetchy/devopsfetch.py:75-100 | Directive lines before the first block change no record. |
| NginxProperties.InBlockStep | fetchy/devopsfetch.py:75-100 | Inside a block, an ordinary line only updates the accumulators. |
| NginxProperties.CloseStep | fetchy/devopsfetch.py:76-88 | A closing line inside a block emits the accumulated record, if any, and leaves the machine outside with cleared accumulators. |
| NginxProperties.BlockAccumulates | fetchy/devopsfetch.py:88-100 | After an open line and any body without braces, the accumulators hold the last value of each directive in the body. |
| NginxProperties.SingleBlockLastValueWins | fetchy/devopsfetch.py:76-100 | A single block yields one record, built from the last `server_name`, `listen` and `root` lines, when name and listen are non-empty, and none otherwise. |
| NginxProperties.SingleBlockEmits | fetchy/devopsfetch.py:76-100 | The same, stated through the record a closing line emits. |
| NginxProperties.CloseEndsRun | fetchy/devopsfetch.py:76-88 | A closing line after an open block emits exactly that block's record. |
| NginxProperties.NginxInfoShape | fetchy/devopsfetch.py:84-107 | The result is the placeholder exactly when no record passes the domain filter. Every listed record is a wanted record of the file, and every wanted record is listed. |
| NginxProperties.ListingMembers | fetchy/devopsfetch.py:84-85 | A record is listed exactly when it was emitted and the domain is absent, empty, or a substring of its server name. |
| TimeWindow.GetActivitiesInTimeRange | fetchy/devopsfetch.py:123-152 | The method returns `Activities`: a range error before the log is read; `[]` for a missing log; otherwise the kept entries or the placeholder. |
| TimeWindow.SelectActivities | fetchy/devopsfetch.py:133-145 | The loop's list is the entry of every line whose syslog stamp parses and lies in the window, in log order. |
| TimeWindow.Activities | fetchy/devopsfetch.py:124-152 | It is an error exactly when the range does not parse. A missing log gives `[]`, and a present log never gives `[]`. |
| TimeWindow.ParseRange | fetchy/devopsfetch.py:124-126 | A parsed range holds two valid datetimes. |
| TimeWindow.ParseBound | fetchy/devopsfetch.py:125-126 | A parsed bound is a valid datetime: a real calendar day, second at most 59, year 1 to 9999. |
| TimeWindow.LineStamp | fetchy/devopsfetch.py:135-137 | A parsed line stamp carries the substituted year and in-range fields. It is a valid datetime whenever the year is one. |
| TimeWindow.DefaultYearIsShortest | fetchy/devopsfetch.py:136-137 | No month is shorter in any year than in 1900, so a day that parses with the default year survives the year substitution. |
| TimeWindow.Field | fetchy/devopsfetch.py:125-136 | A numeric `strptime` field's value lies in its range. |
| TimeWindow.Clock | fetchy/devopsfetch.py:125-136 | A parsed `%H:%M:%S` has hour at most 23, minute at most 59 and second at most 61. |
| TimeWindow.MonthNumber | fetchy/devopsfetch.py:136 | `%b` matches exactly the twelve English abbreviations, in any letter case, and gives their position. |
| TimeWindowProperties.MonthAbbrRead | fetchy/devopsfetch.py:136 | Each month abbreviation syslog writes is one word and reads back as its month. |
| TimeWindowProperties.DayRead | fetchy/devopsfetch.py:136 | A day of the month written in decimal is one word and reads back as `%d`. |
| TimeWindowProperties.ClockRead | fetchy/devopsfetch.py:136 | A clock with two digits per field is one word and reads back as `%H:%M:%S`. |
| TimeWindowProperties.LineStampRoundTrip | fetchy/devopsfetch.py:135-137 | A line that starts with a month abbreviation, a day that exists in 1900 and a clock, each followed by blanks, gets that date and clock in the start's year, whatever text follows. |
| Common.WordsFirst | fetchy/devopsfetch.py:135 | `split()` of a word followed by blanks gives that word, then the words of the rest. |
| TimeWindowProperties.EntryForKeeps | fetchy/devopsfetch.py:135-143 | A line is kept exactly when its stamp parses and lies within the bounds inclusive. Its entry holds the stripped line and the stamp written out, which reads back as that stamp when the year has four digits. |
| TimeWindowProperties.NotAfterIsTotalOrder | fetchy/devopsfetch.py:139 | The datetime comparison is reflexive, antisymmetric, transitive and total. |
| TimeWindowProperties.SelectMembers | fetchy/devopsfetch.py:133-143 | An entry is kept exactly when some line's stamp parses, lies in the inclusive window, and the entry is that stamp written out with the stripped line. |
| TimeWindowProperties.SelectAppend | fetchy/devopsfetch.py:133-143 | Selection distributes over concatenation of logs, so entries keep log order. |
| TimeWindowProperties.ActivitiesShape | fetchy/devopsfetch.py:146-152 | The result is the placeholder exactly when no line is kept; otherwise it is the kept entries. |
| TimeWindowProperties.LeapDayIsSkipped | fetchy/devopsfetch.py:136 | A `Feb 29` syslog line is skipped, even in a leap year, because it is parsed as 1900. |
| TimeWindowProperties.SelectedStampsInWindow | fetchy/devopsfetch.py:139-141 | For start years from 1000 on, every kept timestamp, read back as a bound, lies between start and end. |
| TimeWindowProperties.BoundRoundTrip | fetchy/devopsfetch.py:125-141 | A valid datetime with a four-digit year, written by `strftime`, parses back as itself. |
| TimeWindowProperties.RangeRoundTrip | fetchy/devopsfetch.py:124-126 | Two such datetimes written and joined by a comma parse back as that range. |
| TimeWindowProperties.RangeOfParts | fetchy/devopsfetch.py:124-126 | A two-part range is the pair of its parsed parts. A bad start is reported before a bad end. |
| TimeWindowProperties.OneCommaRequired | fetchy/devopsfetch.py:124 | Any range that is accepted contains exactly one comma. |
| TimeWindowProperties.NoCommaInStamp | fetchy/devopsfetch.py:124-141 | A written timestamp has no comma, so it can stand on either side of a range. |
| TimeWindowProperties.ClockRoundTrip | fetchy/devopsfetch.py:125-141 | A written `%H:%M:%S` parses back as the same clock. |
| TimeWindowProperties.DayAndClockRoundTrip | fetchy/devopsfetch.py:125-141 | A written day, blank and clock are read back field by field. |
| TimeWindowProperties.MonthRoundTrip | fetchy/devopsfetch.py:125-141 | A written month and the dash after it are read back. |
| TimeWindowProperties.FormatStampShape | fetchy/devopsfetch.py:141 | A written timestamp with a four-digit year starts with that year, then a dash and the two-digit fields. |
| TimeWindowProperties.FormatStampStripped | fetchy/devopsfetch.py:141 | Stripping leaves a written timestamp unchanged. |
| TimeWindowProperties.Pad2Field | fetchy/devopsfetch.py:141 | A two-digit field reads back as its number. |
| TimeWindowProperties.Pad2Value | fetchy/devopsfetch.py:141 | Two digits written for a number have that number as their value. |
| TimeWindowProperties.Pad2NoSeparator | fetchy/devopsfetch.py:141 | A two-digit field holds no separator and no blank. |
| Collectors.GetActivePorts | fetchy/devopsfetch.py:16-33 | The method returns `ActivePorts`: the loop's list of listening sockets with a live process, filtered by port. |
| Collectors.GetDockerInfo | fetchy/devopsfetch.py:35-52 | The method returns `DockerInfo`: the containers passing the name filter, or `[]` on any Docker error. |
| Collectors.GetUserInfo | fetchy/devopsfetch.py:109-121 | The method returns `UserInfos`: one record per password entry passing the name filter. |
| Collectors.PortEntry | fetchy/devopsfetch.py:20-30 | A connection gives a record exactly when it is `LISTEN`, its process is found, and there is no filter or the filter is its port in decimal. The record holds the port, process name, pid and `LISTEN`. A non-empty filter that matches is all digits and its value is the port. |
| CollectorProperties.PortsMembers | fetchy/devopsfetch.py:19-30 | A port record is listed exactly when some connection is `LISTEN`, its process is found, and the filter is absent, empty, or the port in decimal. |
| CollectorProperties.PortFilterIsPostFilter | fetchy/devopsfetch.py:29-30 | Filtering by port while collecting equals collecting everything and then keeping the records whose port is the filter, in the same order. |
| CollectorProperties.NonNumericPortFilterMatchesNothing | fetchy/devopsfetch.py:29 | A filter with any non-digit character matches no port. |
| Collectors.ContainerEntry | fetchy/devopsfetch.py:41-48 | A container gives a record exactly when its image can be read and it passes the name filter. The record holds its short id, name, status and image name. With a filter, the name is the filter. |
| Collectors.ImageName | fetchy/devopsfetch.py:44 | The image name is the first tag, or "None" when the image has no tag. |
| CollectorProperties.ContainersMembers | fetchy/devopsfetch.py:40-48 | A container record is listed exactly when the container passes the name filter. Its image is the first tag, or "None" for an untagged image. |
| CollectorProperties.DockerErrorEmptiesListing | fetchy/devopsfetch.py:50-52 | An unreadable image anywhere empties the whole listing. |
| CollectorProperties.DistinctNamesSelectAtMostOne | fetchy/devopsfetch.py:47 | The name filter is exact: with distinct names, the Docker listing for a name has at most one container. |
| CollectorProperties.ContainerFilterIsPostFilter | fetchy/devopsfetch.py:47-48 | Filtering by name while collecting equals collecting everything and then keeping that name. |
| Collectors.UserEntry | fetchy/devopsfetch.py:112-120 | A password entry gives a record exactly when it passes the name filter. The record holds its name, id and home. Its last login is never empty: the lookup's output when non-empty, "Never" otherwise. |
| CollectorProperties.AllUsersListed | fetchy/devopsfetch.py:111-121 | Without a filter, every password entry gives one record, in order, with its name, id and home. |
| CollectorProperties.UsersMembers | fetchy/devopsfetch.py:112-120 | A listed user matches the filter. Its last login is the lookup's output, or "Never" exactly when that output is empty. |
| CollectorProperties.UserFilterIsPostFilter | fetchy/devopsfetch.py:119-120 | Filtering by user name while collecting equals collecting everything and then keeping that name. |
| Table.PrintTable | fetchy/devopsfetch.py:154-186 | No rows give the "No data available." case. A long-text column with no wrapped line at all fails before any row changes. Otherwise the result has the first row's keys, the positive widths, and the shown rows wrapped; the array ends as `AfterRendering` of its old contents. |
| Table.ComputeMaxLengths | fetchy/devopsfetch.py:162-170 | The loop's widths equal `Widths` over all rows for the first row's keys, including its failure. |
| Table.LongestWrappedLine | fetchy/devopsfetch.py:166-168 | The nested loops find the longest wrapped line of the column over all rows, or none. |
| Table.WidestValue | fetchy/devopsfetch.py:170 | The loop finds the widest `str()` of the column over all rows. |
| Table.AddRows | fetchy/devopsfetch.py:173-179 | The loop adds the shown rows, wrapped, in order, and leaves the array as `AfterRendering` of its old contents. |
| Table.WrapTextFields | fetchy/devopsfetch.py:175-178 | The loop over a shown row's keys gives the row wrapped. |
| Table.ApplyWidths | fetchy/devopsfetch.py:182-184 | The loop sets exactly the positive widths, in column order. |
| Table.AfterRenderingAt | fetchy/devopsfetch.py:173-179 | After rendering, a shown row is its wrapped form, and a row that is not shown is exactly as it was. |
| Table.WidthsFailFrom | fetchy/devopsfetch.py:164-168 | Once a key's `max()` fails, the later keys are never reached. |
| TableProperties.ColumnWidthIsWidestCell | fetchy/devopsfetch.py:170 | An ordinary column is as wide as its widest cell over all rows, including rows the filter later drops. No cell is wider, and one is exactly that wide. |
| TableProperties.WidestBounds | fetchy/devopsfetch.py:170 | No item is wider than the maximum. |
| TableProperties.WidestIsAttained | fetchy/devopsfetch.py:170 | Some item is exactly as wide as the maximum. |
| TableProperties.LongestLineIsLongest | fetchy/devopsfetch.py:166-168 | The longest line is no shorter than any line and equal to one of them. It is absent exactly when there are no lines. |
| TableProperties.TextWidthAbsent | fetchy/devopsfetch.py:166-168 | A long-text column has no width exactly when every row's text wraps to nothing. |
| TableProperties.LineFitsTextWidth | fetchy/devopsfetch.py:166-168 | No wrapped line of the column is longer than its width. |
| TableProperties.TextWidthIsAttained | fetchy/devopsfetch.py:166-168 | Some wrapped line is exactly as long as the width. |
| TableProperties.TextWidthAtMost80 | fetchy/devopsfetch.py:166-168 | With text wrapped to 80 characters, no long-text column is wider than 80. |
| TableProperties.WidthsFailWhen | fetchy/devopsfetch.py:163-168 | The widths fail exactly when some long-text key of the first row has no wrapped line in any row. |
| TableProperties.WidthsPerKey | fetchy/devopsfetch.py:163-170 | Otherwise there is one width per key of the first row, in order: the longest wrapped line for `Activity`/`Message`, the widest cell for the others. |
| TableProperties.AppliedMembers | fetchy/devopsfetch.py:182-184 | A width is set exactly when it is one of the computed widths and above zero. |
| TableProperties.WrappedKeepsKeys | fetchy/devopsfetch.py:175-178 | Wrapping keeps the row's keys and their order. |
| TableProperties.WrappedCellAt | fetchy/devopsfetch.py:175-178 | Wrapping keeps every ordinary cell. An `Activity`/`Message` cell becomes its wrapped lines joined by newlines. |
| TableProperties.BodyMembers | fetchy/devopsfetch.py:174-179 | A row is added exactly when some input row is shown, and it is added wrapped. |
| TableProperties.NothingShown | fetchy/devopsfetch.py:173-179 | The table has no body rows exactly when no row is shown, and then every row is left as it was. |
| TableProperties.EverythingShown | fetchy/devopsfetch.py:173-179 | When every row is shown, the table holds all rows wrapped, which are also the rows left in the array. |
| Common.ReprPlain | fetchy/devopsfetch.py:174 | `repr` of printable ASCII text without a quote or backslash is the text in single quotes. |
| TableProperties.ReprInValuesText | fetchy/devopsfetch.py:174 | The text of a row's values holds the `repr` of each of its values. |
| TableProperties.ShownByValue | fetchy/devopsfetch.py:174 | A row is shown whenever the filter occurs in the `repr` of one of its values. |
| TableProperties.ShownByPlainText | fetchy/devopsfetch.py:174 | A row is shown whenever the filter occurs in one of its plain text values. |
| TableProperties.DictValuesFilterShowsEveryRow | fetchy/devopsfetch.py:174 | The filter is matched against the `dict_values([...])` text, so a filter such as `dict` shows every row whatever its values. |

## Left out

- Operating-system, Docker and subprocess calls are inputs of the methods:
  - `psutil.net_connections`, `psutil.Process` and `process.name`;
  - `docker.from_env` and the container listing;
  - `pwd.getpwall`;
  - the `last` pipeline.
- Exceptions the source does not catch are not modelled, because they end the program rather than produce a report:
  - `psutil.AccessDenied` from `psutil.Process` or `process.name` (fetchy/devopsfetch.py:22-25). `psutil.ZombieProcess` is a subclass of `NoSuchProcess`, so line 31 catches it; the model's lookup returns `None` for it.
  - a `PermissionError` or other `OSError` when opening `/var/log/syslog`, since line 146 catches only `FileNotFoundError`; the model's `None` log stands for the missing file alone.
- `subprocess.getoutput` (line 112) never raises: whatever the `last` pipeline prints, error text included, is the login lookup's value.
- Reading `/etc/nginx/nginx.conf` and `/var/log/syslog` is an optional sequence of lines. `None` stands for a missing file, and for the Nginx reader also any read error. Line splitting and decoding are not modelled.
- The printed messages ("Nginx configuration file not found…", "Error connecting to Docker…", "Log file … not found.", the table text) are I/O and are not modelled. Only the returned values are.
- `textwrap.wrap` is a function parameter. Its 80-character bound appears only as the requires of `TableProperties.TextWidthAtMost80`.
- PrettyTable is not modelled: its text layout, how it uses `max_width`, and the exception `add_row` raises for a row of a different length.
- Table.PrintTable: requires every `Activity`/`Message` cell to hold text. The source has no such check; `textwrap` raises on a non-string, and that exception is not modelled. The collectors always produce text in those cells.
- Rows are sequences of key-value pairs. Dictionary key uniqueness and the aliasing of the same dictionary in two rows are not modelled.
- `repr` of strings escapes only the quote, the backslash and control characters. Python's escaping of non-printable non-ASCII characters is not modelled.
- `strptime` is modelled only for the formats used:
  - fixed English month abbreviations, ASCII case folding;
  - ASCII digits only, where Python's regex also accepts other Unicode decimal digits;
  - no locale handling.
- TimeWindowProperties.BoundRoundTrip: holds only for years 1000 to 9999. glibc's `%Y` writes smaller years without padding, and those do not parse back as `%Y`.
- `continuous_monitoring` is not part of this model: an endless loop with sleeping, logging configuration and log rotation, all I/O.
- `main` is not part of this model: argument parsing and dispatch.
