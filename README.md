# courier-pythonfilter core, modelled in Dafny

This project models three modules of courier-pythonfilter, the Python filter framework for the Courier mail server:

- **courier/config.py**: Courier's configuration lookups.
  - the cached `me`, `defaultdomain` and `dsnfrom` values;
  - whether a domain is local (the `locals` file) or hosted (`hosteddomains.dat`);
  - alias expansion;
  - the `smtpaccess` database with its RELAYCLIENT and BLOCK settings.
- **courier/control.py**: reading a message's queue control files.
  - record values (`get_lines` and the single-record queries);
  - the recipient list, and the dictionary `get_control_data` returns;
  - adding recipients, and removing them by appending completion records;
  - finding the SMTP AUTH user in the message's Received: headers.
- **courier/xfilter.py**: the resubmission path of an `XFilter`.
  - the loop guard in its constructor, which uses the `X-Filtered-By` header;
  - the xtext encoding of DSN parameters;
  - reading submit's SMTP-style replies;
  - the sender and recipient lines fed to submit;
  - marking the original recipients complete once submit accepts.

Modules:

- `Wrappers` (wrappers.dfy): `Option` and `Result`.
- `Text` (text.dfy): the Python string operations the code relies on.
  - `strip`, `split` and `join` on one character;
  - `find` and `rfind`;
  - `'%d'`, `'%X'` and `int()`.
- `Config` (config.dfy): courier/config.py.
- `Control` (control.dfy): courier/control.py.
- `Xfilter` (xfilter.dfy): courier/xfilter.py.

Where the Python code loops over files or lines, the model has a `method` with the same loop. Its `ensures` ties the result to a specification function. The properties are proved about those functions as lemmas.

Where the Python code appends to control files, the model has a class, `Control.ControlFiles`, whose `files` field the methods reassign. An `XFilter` object is a class that holds such a set.

How the model represents I/O:

- **Configuration and control files.** A file is the sequence of its lines, without line ends. A blank line is `""`, and its record type is `'\n'`, as `ctl_line[0]` gives it.
- **Message body and submit's output.** Both are given as lines with their line ends. `readline()` returns `""` past the end.
- **read1line results.** Each is an `Option<string>`, and a `None` stands for a missing file.
- **DBM databases.** Each is an `Option<map<string, string>>`, and a `None` stands for one that cannot be opened.
- **Host name, clock and AUTH regex.** The host name and the clock are parameters. So is `_auth_regex`, given as a search function that returns the first group.

Behaviour the model states as it is:

- **me() and its fallbacks.** Only some answers are cached. `me()` caches whatever it returns. `defaultdomain()` and `dsnfrom()` cache only a value read from their file; their fallback through `me()` is recomputed on every call, so the answer changes once the file appears (`Config.DefaultDomainFallbackNotCached`).
- **isLocal's `.suffix` rules.** A rule matches when it is a raw string suffix of the domain, so it is not tied to label boundaries (`Config.DotRuleIsStringSuffix`). The first rule in file order decides (`Config.LocalsFileOrderMatters`).
- **Only the first sender.** `get_sender` reports the first `s` record, while `get_control_data` reports the last one. The two agree only when the set has a single `s` record (`Control.SenderAgreesWithControlData`).
- **Deleting the first match only.** The two del functions mark only the first pending recipient that matches. So adding a recipient and then deleting it restores the list only when no equal recipient was already pending (`Control.AddThenDeleteRestores`).
- **Line ends in recipient fields.** `add_recipient_data` writes each field as `'r%s\n'`, `'R%s\n'` or `'N%s\n'`, so a line end inside a field splits the record. An address `a` + line end + `b` reads back as the address `a`, and `b` becomes a stray line (`Control.LineEndSplitsRecord`). An original recipient ending in a line end and `S0 1` writes a delivery record, which closes the first recipient of the file (`Control.LineEndInjectsDelivery`). The add-then-read lemmas therefore hold for fields with neither a line feed nor a carriage return.
- **xtext is not injective.** `_xtchar` writes escapes with `'+%X'`, which does not pad. Codes below 16 therefore get one hex digit, and two different texts can share an encoding (`Xfilter.XtextCollides`). RFC 3461 decoding inverts the encoding when every escaped character has a two-digit code (`Xfilter.XtextRoundTrip`).

## Model

| member | source | states |
|---|---|---|
| Config.Identity.Me | courier/config.py:39-56 | me() answers the cache, the `me` file or the host name, in that order; it caches whatever it answers; the other caches are untouched |
| Config.Identity.DefaultDomain | courier/config.py:59-74 | defaultdomain() answers the cache, the file, or me(); only a value from the file is cached; the `me` cache changes only through that fallback |
| Config.Identity.DsnFrom | courier/config.py:77-89 | dsnfrom() answers the cache, the file, or `"Courier mail server at <me>" <@>`; only a value from the file is cached |
| Config.MeIsStable | courier/config.py:48-49 | once me() has answered a non-empty name, the next call answers the same name, whatever the files say by then |
| Config.DefaultDomainFallbackNotCached | courier/config.py:68-74 | without a defaultdomain file the answer is me(); once the file appears, the answer is the file's value |
| Config.IsLocal | courier/config.py:99-123 | without a locals file, only me() is local; otherwise the answer comes from the first rule that fires, in file order; comment, blank and white-space-only lines are skipped (corrected, see Findings) |
| Config.DotRuleIsStringSuffix | courier/config.py:118 | a `.suffix` rule fires exactly when it is a raw string suffix of the domain, and it never vetoes |
| Config.FirstRuleDecides | courier/config.py:112-122 | when every earlier line says nothing, the first line that says something decides |
| Config.NoRuleFires | courier/config.py:112-123 | the scan finds no verdict (not local) exactly when no line fires |
| Config.LocalsFileOrderMatters | courier/config.py:116-121 | `.example.com` before `!sub.example.com` makes sub.example.com local; the reverse order does not |
| Config.CommentLineLoopsForever | courier/config.py:113-114 | as written, the loop `continue`s on a comment or blank line without reading another line, so it never leaves that line |
| Config.CommentedLocalsCounterexample | courier/config.py:113-114 | a locals file that opens with a comment: the corrected scan finds the domain local, while the loop as written never gets past the comment |
| Config.BlankRuleCounterexample | courier/config.py:115-116 | a white-space-only line: the corrected scan skips it, while the loop as written faults on `line[0]` |
| Config.AsWrittenAgreesOnPlainFiles | courier/config.py:111-123 | on a file with no comment, blank or white-space-only lines, the loop as written ends within one pass per line and gives the corrected answer |
| Config.IsHostedDomain | courier/config.py:126-143 | hosted exactly when the database opens and holds the domain or one of the `.`-joined parent suffixes of its labels |
| Config.SuffixKeyIsDotTail | courier/config.py:138-142 | every parent-suffix key tried is the tail of the domain from one of its dots |
| Config.DotTailIsSuffixKey | courier/config.py:138-142 | every tail of the domain from one of its dots is tried as a key |
| Config.HostedIsDotTailLookup | courier/config.py:126-143 | hosted exactly when the database opens and holds the domain or its tail from some dot |
| Config.Qualify | courier/config.py:152-158 | the key always has an `@`; it is either the address unchanged or ends in `@` followed by me(); a bare name is its prefix |
| Config.Alias | courier/config.py:146-166 | None exactly when the aliases database cannot be opened or lacks the qualified key; otherwise at least one line, none holding a line end |
| Config.QualifyRule | courier/config.py:152-158 | the key keeps the part before the first `@`; its domain is me() when the address has no `@` or its domain is local, and the address's own domain otherwise |
| Config.QualifyKeepsLocalPart | courier/config.py:152-158 | the looked-up key always has an `@`, and keeps the local part that precedes the first `@` |
| Config.QualifyIdempotent | courier/config.py:152-158 | qualifying an already-qualified address changes nothing |
| Config.AliasExpansion | courier/config.py:159-166 | None exactly when the database cannot be opened or lacks the key; otherwise a non-empty list of newline-free lines whose newline-join is the stripped stored value |
| Config.SmtpAccess | courier/config.py:169-196 | smtpaccess(ip) is None without a separator or a database; otherwise the longest-prefix lookup |
| Config.LongestPrefixMatch | courier/config.py:185-196 | no match exactly when no cut of the address at a separator is a key; otherwise the value is that of the longest such cut that is a key |
| Config.GetSmtpaccessVal | courier/config.py:199-225 | the value of the first comma-separated token that mentions the key, or None when no record or no token matches |
| Config.FirstMatchingToken | courier/config.py:215-225 | None exactly when no token mentions the key; otherwise the first token that does is `key`, giving '', or `key=value`, giving value |
| Config.IsRelayed | courier/config.py:228-235 | relaying is allowed only when the database opens, the address has a `.` or `:` separator and some record matches it |
| Config.IsWhiteblocked | courier/config.py:238-251 | white-listed only when the database opens, the address has a separator and the BLOCK value is exactly '' |
| Config.GetBlockVal | courier/config.py:254-264 | a BLOCK value is reported only when the database opens, the address has a separator and some record matches it |
| Config.RelayDecision | courier/config.py:228-235 | relaying is allowed exactly when a token of the matching record mentions RELAYCLIENT, with or without a value |
| Config.BlockTokensAllow | courier/config.py:215-225 | the BLOCK value is '' exactly when the first token mentioning BLOCK is `BLOCK` or `BLOCK=` |
| Config.WhiteblockDecision | courier/config.py:238-251 | an address is white-listed from blocks exactly when its record's first BLOCK token is `BLOCK` or `BLOCK=` |
| Config.UnavailableStoreDegrades | courier/config.py:180-184 | with no smtpaccess database, nothing is relayed, nothing is white-listed and no block value is reported |
| Control.Capped | courier/control.py:46-50 | the values kept are a prefix of all values, at most max_lines of them when max_lines is positive, and all of them otherwise |
| Control.GetLines | courier/control.py:27-51 | get_lines gives the stripped values of the `key` records of every file in order, capped at max_lines |
| Control.Sender | courier/control.py:81-86 | get_sender is None exactly when there is no `s` record, else the first `s` value |
| Control.SendersMta | courier/control.py:54-64 | get_senders_mta is None exactly when there is no `f` record, else the first `f` value |
| Control.SendersIpText | courier/control.py:67-74 | the text extracted is non-empty, holds no `]`, and starts the part of the first `f` record after its first `[` |
| Control.Recipients | courier/control.py:89-96 | get_recipients fails exactly when get_recipients_data does; otherwise it lists the address of each recipient, in order |
| Control.BracketedAddress | courier/control.py:72 | in `head[ip]tail` with no `[` in head and no `]` in ip, the text extracted is ip |
| Control.SendersIpOfRecord | courier/control.py:67-74 | get_senders_ip extracts the bracketed address of the first Received-From-MTA record |
| Control.DeliveryIndex | courier/control.py:152-154 | the number on an S/F record, read as a Python index, is a valid recipient position; otherwise it is an error (ValueError or IndexError) |
| Control.RecipientsFromFile | courier/control.py:117-156 | _get_recipients_from_file reads r/R/N records into recipients and marks S/F records delivered, or raises |
| Control.RecipientsNumbered | courier/control.py:130-133 | recipient i of a file is numbered i and never has an empty address |
| Control.GetRecipientsData | courier/control.py:99-114 | get_recipients_data lists the undelivered recipients of every file in order; the first unreadable file raises |
| Control.GatherAppend | courier/control.py:108-114 | reading a set in two parts succeeds when both parts do; the recipients of the first part come first |
| Control.ControlDataIsLastRecord | courier/control.py:159-206 | each field of get_control_data is the last value of its record type across the set; V is a present/absent flag; r is get_recipients_data |
| Control.ScanKeepsLast | courier/control.py:189-204 | the line scan keeps, for each record type, the last value seen |
| Control.GetControlData | courier/control.py:159-206 | get_control_data scans every line of every file, then reads the recipients |
| Control.SenderAgreesWithControlData | courier/control.py:81-86 | get_sender gives the first `s` record and get_control_data the last; they agree when there is exactly one |
| Control.Records | courier/control.py:237-239 | the text written for one field is split at its line ends: at least one line, none holding a line end |
| Control.WritableRecords | courier/control.py:237-239 | fields without line ends are written as exactly three records, `r`, `R` and `N` |
| Control.LineEndSplitsRecord | courier/control.py:237-239 | an address `a` + line end + `b` is written as `ra`, `b`, `R`, `N` and reads back as the address `a` |
| Control.LineEndInjectsDelivery | courier/control.py:237-239 | an original recipient `x` + line end + `S0 1` writes an `S0 1` record, so the file's earlier pending recipient is read as delivered |
| Control.ControlFiles.AddRecipientData | courier/control.py:220-240 | appends the r, R and N records to the last file, each field split at its line ends; raises ValueError for data that is not three fields and IndexError for an empty set, changing nothing |
| Control.ControlFiles.AddRecipient | courier/control.py:209-217 | adds a recipient with an empty original recipient and empty DSN flags |
| Control.ReadRecipientRecords | courier/control.py:237-239 | for fields without line ends, reading the three appended records adds one recipient with the stripped fields, unless its address strips to nothing |
| Control.AddAppendsRecipient | courier/control.py:220-240 | for fields without line ends, after add_recipient_data, get_recipients_data gives the old list plus the new recipient at the end (none when its address strips to nothing) |
| Control.AddThenGetRecipientsData | courier/control.py:220-240 | adding already-stripped, single-line recipient data then listing gives the old list plus that data |
| Control.AddRecipientThenGetRecipients | courier/control.py:209-217 | after add_recipient of a stripped, single-line address, get_recipients is the old list followed by the address |
| Control.ControlFiles.MarkComplete | courier/control.py:243-249 | _mark_complete appends exactly the I and S records for that recipient to that file |
| Control.CompletionIndex | courier/control.py:247-249 | the S record written for recipient n reads back as index n |
| Control.ReadCompletionRecords | courier/control.py:247-249 | reading the completion records marks recipient n delivered and changes nothing else |
| Control.MarkDropsFirstMatch | courier/control.py:243-249 | marking the first pending match delivered removes exactly that recipient from the pending list |
| Control.ControlFiles.DeleteFirst | courier/control.py:292-298 | marks the first undelivered match, in the first file that has one, complete; files after it are not read; a file that cannot be read raises |
| Control.ControlFiles.DelRecipient | courier/control.py:252-272 | del_recipient closes the first undelivered recipient with that address |
| Control.ControlFiles.DelRecipientData | courier/control.py:275-298 | del_recipient_data closes the first undelivered recipient with those three fields; data that is not three fields raises ValueError |
| Control.DeleteWithoutMatch | courier/control.py:292-298 | when nothing pending matches, the files are unchanged |
| Control.DeleteWithMatch | courier/control.py:292-298 | when something matches, the list afterwards is the list without its first match |
| Control.DeleteRemovesFirstMatch | courier/control.py:275-298 | on a readable set, deleting succeeds, and get_recipients_data afterwards is the old list without its first match |
| Control.AddThenDeleteRestores | courier/control.py:275-298 | adding a single-line recipient then deleting it, by address or by data, restores the list, provided no equal recipient was already pending |
| Control.CheckHeader | courier/control.py:303-322 | a header is skipped exactly when it does not start with `Received:` |
| Control.HeaderEnd | courier/control.py:346-352 | the header block ends at the first blank line or at the end of the file |
| Control.FirstReceivedDecides | courier/control.py:356-361 | the first Received: header decides the answer, whatever follows it |
| Control.NoReceivedNoUser | courier/control.py:364-366 | without a Received: header there is no AUTH user |
| Control.UnfoldKeepsText | courier/control.py:353-355 | unfolding continuation lines joins lines and drops none |
| Control.AuthIgnoresBody | courier/control.py:349-352 | what follows the blank line never changes the answer |
| Control.GetAuthUser | courier/control.py:325-366 | get_auth_user gives the AUTH user named by the first Received: header of the unfolded header block; an empty name or an unopenable file gives None |
| Xfilter.XChar | courier/xfilter.py:147-153 | an escaped character becomes `+` and hex digits that read back as its code; any other character is kept; the output is printable ASCII |
| Xfilter.HexNumberOfHex | courier/xfilter.py:151 | the digits `'%X'` writes read back as the number |
| Xfilter.ToXtext | courier/xfilter.py:146-155 | the encoding is never shorter than the text |
| Xfilter.XtextPrintable | courier/xfilter.py:146-155 | every character of an encoding has a code in 33..126 |
| Xfilter.XtextAppend | courier/xfilter.py:154 | the encoding distributes over concatenation |
| Xfilter.XtextUnchangedIffSafe | courier/xfilter.py:147-153 | text is left unchanged exactly when nothing in it needs escaping, which is exactly when its encoding is no longer |
| Xfilter.XtextHasNoSeparators | courier/xfilter.py:182 | an encoded field holds no space, tab or line end |
| Xfilter.XtextCollides | courier/xfilter.py:151 | "\nB" and "«" share the encoding "+AB" |
| Xfilter.XtextRoundTrip | courier/xfilter.py:146-155 | RFC 3461 decoding inverts the encoding when every escape has two hex digits |
| Xfilter.ResponseFrom | courier/xfilter.py:110-122 | a reply that is read has more than four characters and consumes at least one line |
| Xfilter.ResponseUpToFinal | courier/xfilter.py:113-118 | the reply is exactly the lines up to and including the first final line (a space after the code) |
| Xfilter.ResponseHasFinal | courier/xfilter.py:115-122 | every reply read completely ends at a final line |
| Xfilter.ReadResponse | courier/xfilter.py:110-122 | _submit_read_response: the gathered reply and the next line, or the text gathered before an end of file or a short line |
| Xfilter.RecvDecidedByFirstDigit | courier/xfilter.py:134-144 | a complete reply is accepted exactly when its first character is not 4 or 5; a refusal carries the whole reply |
| Xfilter.Receive | courier/xfilter.py:134-144 | _submit_recv: SubmitError on an unreadable reply or a 4xx/5xx one, else the next line |
| Xfilter.RepliesFailureSticks | courier/xfilter.py:137-144 | once a reply fails, no later reply is read |
| Xfilter.RepliesAdvance | courier/xfilter.py:114-119 | n accepted replies take at least n lines |
| Xfilter.SubmitArgs | courier/xfilter.py:158-163 | the command line is the submit path, `-src=` only with a message source, `esmtp` and the Received-From-MTA record |
| Xfilter.BuildArgs | courier/xfilter.py:157-163 | builds that command line |
| Xfilter.BuildFlags | courier/xfilter.py:168-173 | the RET value, `V`, then the security level, each only when set |
| Xfilter.BuildSenderLine | courier/xfilter.py:167-176 | builds the sender line field by field |
| Xfilter.SenderLine | courier/xfilter.py:167-176 | the sender line starts with the sender and ends with a line end; it is a single line when neither the sender nor the flags hold a line end |
| Xfilter.SenderLineFields | courier/xfilter.py:167-176 | the sender line ends in a line end and splits at tabs into the sender, the flags and, when there is an envid, the encoded envid |
| Xfilter.RecipientLine | courier/xfilter.py:181-182 | a recipient line starts with the address and ends with a line end; it is a single line when neither the address nor the original recipient holds a line end |
| Xfilter.RecipientLineFields | courier/xfilter.py:181-182 | a recipient line splits at tabs into the address, the encoded DSN flags and the original recipient, and the flags decode back |
| Xfilter.SendRecipients | courier/xfilter.py:180-184 | writes one line per recipient, each followed by a reply; the first refusal stops the loop, after the line of the recipient whose reply failed, the replies before it all accepted |
| Xfilter.Converse | courier/xfilter.py:166-195 | the replies are those of the sender line, one per recipient and one for the message; the text written is always a prefix of the full submission, and all of it when every reply accepts |
| Xfilter.XFilter.Submit | courier/xfilter.py:109-204 | a refusal leaves the control files unchanged and passes the error on; acceptance writes the full submission and then closes every recipient |
| Xfilter.MarkAllComplete | courier/xfilter.py:203-204 | del_recipient_data for each recipient in turn; an exception stops the loop |
| Xfilter.CloseAllEmpties | courier/xfilter.py:200-204 | closing the listed recipients in order raises nothing and leaves exactly the recipients after them pending |
| Xfilter.SubmitClosesOriginal | courier/xfilter.py:200-204 | after a submit accepted on unchanged control files, no recipient of the original message is pending |
| Xfilter.Prepared | courier/xfilter.py:77-98 | InitError for an unreadable or unparsable body; LoopError exactly when a marker header already names the filter; on success the existing headers and the body are kept, a marker naming the filter is present, and the control data is that of the files |
| Xfilter.LoopGuard | courier/xfilter.py:86-90 | opening is refused with LoopError exactly when an X-Filtered-By header already names the filter |
| Xfilter.MarkAddsOne | courier/xfilter.py:91-92 | opening adds exactly one marker, after the unchanged existing headers |
| Xfilter.RefilterLoops | courier/xfilter.py:86-92 | the same filter refuses a message it has marked |
| Xfilter.GuardIgnoresCase | courier/xfilter.py:87-88 | a marker header whose name equals X-Filtered-By up to case, and which names the filter, makes opening fail with LoopError |
| Xfilter.LowerCaseMarker | courier/xfilter.py:87-88 | an all-lower-case `x-filtered-by` marker is recognised |
| Xfilter.Open | courier/xfilter.py:77-98 | XFilter(): InitError for an unreadable or unparsable body, LoopError for a marked one, a control-file exception passed through; otherwise the marked message and the control data |

## Left out

- File, DBM, socket and process I/O is not modelled. This covers `open`, `anydbm.open`, `socket.gethostname`, `os.popen2`, `os.wait`, closing streams and `read1line` itself. Their results are parameters, and an `open` that fails on a control file is not modelled.
- `_submit_send` is left out. The IOError it raises on a failed write is not modelled; every write succeeds.
- Parsing a message (`email.message_from_file`) and `as_string()` are left out. The parsed message is a parameter, and so is the text `as_string()` gives.
- Clock: one `now` serves every completion record of a deletion loop.
- `_auth_regex` is left out. Its matching is a parameter function that returns the first group, given the host name already substituted.
- `Lower` and `Strip` know only ASCII white space and letters. Python strings are modelled as `seq<char>`, with no encoding.
- `get_senders_ip` is modelled only up to the text it extracts (`Control.SendersIpText`). The `ipaddress` normalisation and IPv4-mapped unwrapping are left out.
- `locallowercase()` is left out; it is a single file-existence test.
- The deprecated camelCase aliases are left out; they are the same functions.
- `XFilter.getMessage` and `XFilter.getControlData` are left out as getters. In the model they are the `message` and `controlData` fields.
- `get_auth_user(body_file=None)` is left out. Only the file opening or not is modelled, as `None`/`Some(lines)`.
- The `sys.stderr` messages of `smtpaccess` are left out.
- Xfilter.ToXtext: its own contract states only the length bound. What the encoding means is in the lemmas beside it.
- Control.AddAppendsRecipient requires that the set can be read. On an unreadable set, `add_recipient_data` still appends, but the list stays an exception.
- del_recipient_data compares `x[2] == recipient_data`. A caller that passes a tuple never matches the list; the model has only lists.
- Control.AddAppendsRecipient, Control.ReadRecipientRecords and the lemmas built on them (AddThenGetRecipientsData, AddRecipientThenGetRecipients, AddThenDeleteRestores, through `Clean`) promise the round trip only for fields with no line feed and no carriage return. A line feed splits the record (`Control.LineEndSplitsRecord`, `Control.LineEndInjectsDelivery`). A carriage return is excluded because Python 3's universal-newline reading also ends a line there, while the model's files split only at line feeds.
- Text.ParseInt and Control.DeliveryIndex accept only ASCII digits after an optional sign, with white space around them. Python 3's `int()` also takes `_` between digits and other Unicode decimal digits.
- Files are sequences of whole lines. A last control file without a final line end, where appending would join the first new record onto its last line, is not modelled.
- Config.IsWhiteblocked: `is ''` is modelled as equality with the empty string. CPython shares one empty string object, so the two agree.
- Files that submit writes for the new message are left out, and so are courier/quarantine.py and the filter modules.

## Findings

| source | as written | input that shows it | evidently intended | confidence | as-written member | corrected member |
|---|---|---|---|---|---|---|
| courier/config.py:113-114 | `continue` on a comment or blank line skips `locals.readline()` at the loop's end, so the loop never advances | a `locals` file whose first line is `# local domains` | skip to the next line | not executed | Config.CommentLineLoopsForever | Config.IsLocal |
| courier/config.py:115-116 | a white-space-only line strips to '' and `line[0]` raises IndexError | a `locals` file holding `example.org` then a line of a space and a tab, asked about `example.com` | skip the line like a blank one | not executed | Config.BlankRuleCounterexample | Config.IsLocal |
