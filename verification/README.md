# Certificate issuer model (RUET Cyber Fest 2025 CTF certificates)

A Dafny model of the certificate logic in `app.py`.

The system issues participation certificates for a CTF event. A roster file
(`info.json`) lists participants by roll number, name and position.

There are two paths through it:

- **Interactive.** The `/generate` form takes a roll number. It looks the roll
  up in the roster and checks the entry. It then derives a verification code
  (`x` followed by the MD5 hex digest of `name:position:timestamp`) and
  appends a record to `certificates.json`.
- **Batch.** `batch_generate_certificates` walks the roster in order. For each
  valid entry it writes an HTML certificate to `certificate/<roll>.html`, after
  rewriting absolute `/static/` asset paths to relative ones. Entries whose
  rolls print the same write to the same file, and the later write replaces
  the earlier one.

Modules, one per concern of the program:

| file | module | models |
|---|---|---|
| `results.dfy` | `Results` | `Option` and `Result` |
| `text.dfy` | `Text` | Python's `str.strip()`, `str.isdigit()` (ASCII), `int(s)` and `str(n)` |
| `rewrite.dfy` | `Rewrite` | `str.replace` as a left-to-right scan, `split`/`join` as its reference, and `fix_img_paths` |
| `hash.dfy` | `CertHash` | `generate_certificate_hash`, with the MD5 hex digest as a parameter |
| `roster.dfy` | `Roster` | roster values (JSON string, integer or absent key), entries, and the first-match lookup |
| `store.dfy` | `Store` | `load_certificates` and `save_certificate` on a sequence of records |
| `issue.dfy` | `Issue` | `generate_certificate`, from the form field to the stored record |
| `loop.dfy` | `Loop` | the batch loop reduced to each entry's fate: which entries get a file, and where the loop stops |
| `batch.dfy` | `Batch` | `batch_generate_certificates`: the entry filter, file naming, output content and how the run ends |

What the model takes as parameters:

- **Digest.** MD5 is a function `string -> HexDigest`, where a `HexDigest` is
  any 32-character lowercase hexadecimal string. Nothing else about MD5 is
  assumed.
- **Clock.** Readings are plain string parameters: `timestamp` and
  `generatedAt` on the interactive path. On the batch path, `clock(i)` is the
  timestamp read for the entry at index `i`, and `eventDate` is one reading
  for the whole run.
- **Jinja2 rendering.** This is a function from the template variables to
  markup.
- **Roster and store files.** An absent file is `None`. A present one is its
  parsed contents.
- **Output files.** `writable(path)` says whether `open(path, 'w')` succeeds
  for a certificate file. It fails, for example, for roll `a/b`, because the
  directory `certificate/a` is never created.

The batch function has no store parameter, so the batch path cannot read or
write `certificates.json`.

Behaviour of the code that the model keeps as it is:

- **Whitespace-only names.** The interactive path tests the name before
  stripping it. A whitespace-only name is therefore issued with an empty
  display name (`Issue.BlankNameIssuedEmpty`). The batch path strips first
  and skips the entry (`Batch.BlankNameIssuedButNotBatched`).
- **Integer names, interactive path.** A non-zero integer `name` passes the
  truthiness check, and then `.strip()` raises. The exception escapes the
  view, so Flask answers with an HTTP 500 error page instead of the form, and
  no record is stored (`Issue.NameNotText`, which has no inline message). An integer
  name `0` is falsy and is refused as an invalid roll.
- **Integer names, batch path.** An integer `name` raises at `.strip()` and
  ends the run at that entry (`Loop.Status.CrashedAt`). Files written for
  earlier entries stay.
- **Unopenable output files.** An accepted entry whose output file cannot be
  opened also ends the run at that entry (`Batch.UnwritableEndsRun`).
- **Integer rolls.** An integer `roll` never equals the typed-in string, so
  the interactive lookup cannot find it. The batch path accepts it when it
  is non-zero and names the file after its decimal form.

## Model

| member | source | states |
|---|---|---|
| CertHash.Message | app.py:33 | the message starts with the name and ends with the timestamp, and is longer than the two together by the printed position plus two separators |
| CertHash.MessageNameEndsAtFirstSeparator | app.py:33 | for a name without `:`, the first `:` of the message is right after the name |
| CertHash.CertificateHash | app.py:27-35 | the code is 33 characters: `x` then 32 lowercase hex characters, and those are exactly the digest of the message `name:position:timestamp` |
| CertHash.MessageInjective | app.py:33 | for names without `:`, two equal messages have the same name, position and timestamp |
| CertHash.MessageAmbiguousWithSeparatorInName | app.py:33 | with `:` in a name, two different certificates (`a:1`, 2, `t` and `a`, 1, `2:t`) share the message `a:1:2:t` |
| Text.Strip | app.py:45 | the stripped string is no longer than the input and has no whitespace at either end |
| Text.StripIsTrim | app.py:45 | `strip()` removes whitespace from both ends only, up to the first and last non-whitespace characters |
| Text.TrimIsStrip | app.py:45 | any string obtained by cutting exactly the surrounding whitespace is `strip()`'s result: the trim is unique |
| Text.StripEmptyIffBlank | app.py:45-46 | a stripped roll is empty exactly when the typed-in roll is all whitespace |
| Text.StripKeeps | app.py:59 | a string with no whitespace at either end is left as it is |
| Text.StripIdempotent | app.py:117 | stripping an already stripped name changes nothing |
| Text.ParseNatToString | app.py:60 | `int(str(n)) == n` for every non-negative `n` |
| Text.NatToStringParse | app.py:60 | for a digit string, `str(int(s)) == s` holds exactly when it has no leading zero, so position `007` is stored and hashed as `7` |
| Text.IntToStringDigitsIff | app.py:56 | `str(i).isdigit()` holds exactly for the non-negative integers |
| Roster.PositionValue | app.py:60 | the stored position is the natural number that `str(position)` spells, whether the roster holds a string or an integer |
| Roster.PositionIntAndString | app.py:56-60 | an integer position and its decimal string are accepted alike and give the same rank |
| Roster.Lookup | app.py:55 | the entry found is the first one whose roll equals the input exactly, and nothing is found exactly when no entry's roll does |
| Roster.IntRollNeverMatches | app.py:55 | an entry with an integer roll is never the one found for the typed-in string |
| Roster.LookupIgnoresLaterEntries | app.py:55 | entries after the first match do not change what the lookup finds |
| Store.Load | app.py:13-18 | an absent store file reads as the empty list, and a present one as its contents |
| Store.Save | app.py:20-25 | saving keeps every earlier record in place and order and adds the new one at the end: length plus one |
| Store.SaveTwice | app.py:20-25 | two saves keep both records, in the order saved |
| Issue.ErrorMessage | app.py:46-57 | every refusal is shown as an inline message on the form, except the integer-name failure, which raises and gives an HTTP 500 error page instead of the form |
| Issue.Found | app.py:55 | an entry is found exactly when the roster exists and some entry's roll is the stripped input as a string, and the entry found is the first roster entry with that roll |
| Issue.Validate | app.py:45-60 | blank roll, missing roster, unknown roll or failed entry check, and integer name are each refused exactly under their condition; otherwise the candidate holds the stripped name and the parsed position of the first matching entry |
| Issue.MakeRecord | app.py:64-73 | the record holds the name, position and timestamp it was built from, and the code computed from those same fields |
| Issue.Generate | app.py:42-74 | a refused request stores nothing; an accepted one returns a well-formed, self-verifying record and the store grows by exactly that record |
| Issue.BlankRollIgnoresRoster | app.py:45-47 | a blank roll is refused with the same response whatever the roster holds, and the store is unchanged |
| Issue.UnknownRollLeavesStore | app.py:55-57 | a roll no entry has is refused as invalid and the store is unchanged |
| Issue.ReissueAppendsTwo | app.py:63-74 | issuing the same roll twice stores two records with the same name and rank, distinct when the timestamps differ |
| Issue.BlankNameIssuedEmpty | app.py:56-59 | a whitespace-only name passes the check and is issued with an empty display name |
| Issue.AliceExample | app.py:42-74 | roll `101` of `Alice Example`, position `1`, issued at `2025-01-01T00:00:00`, stores `x` + digest of `Alice Example:1:2025-01-01T00:00:00` |
| Batch.Classify | app.py:117-123 | an entry crashes exactly when its name is an integer; it passes the check (`Emit`) exactly when its stripped name is non-empty, `str(position)` is digits and its roll is truthy; an entry that passes carries the stripped name, parsed position and printed roll. Whether it is then written is `Batch.Fate`'s concern |
| Batch.Fate | app.py:117-138 | an entry ends the run exactly when its name is an integer or it passes the check but its file cannot be opened; it is written exactly when it passes the check and its file can be opened, with the values the check produced |
| Batch.PathJoin | app.py:136 | POSIX `os.path.join`: an absolute file replaces the directory; otherwise the result is the directory, then one `/` only when the directory is non-empty and does not already end in one, then the file |
| Batch.HtmlPath | app.py:136 | a relative roll is written to `certificate/<roll>.html`, and a roll starting with `/` escapes to `<roll>.html` |
| Batch.HtmlPathInjective | app.py:136 | two rolls get the same file path exactly when they print the same |
| Loop.WalkFrom | app.py:116-138 | the loop stops at the first failing entry and at no other, and every entry it lists emits and lies before that point |
| Loop.WalkSorted | app.py:116 | the loop lists the entries it emits in roster order |
| Loop.WalkComplete | app.py:116-138 | every emitting entry before the stop is listed |
| Loop.WalkCount | app.py:116-138 | with no failing entry the loop completes and lists one entry per emitting entry |
| Batch.BatchGenerate | app.py:94-139 | a missing roster writes nothing. Otherwise the run stops only at an integer name or an output file that cannot be opened. Every write comes from an accepted entry, with its expected path, code and rewritten markup. Writes are in roster order, and every accepted entry read gets one |
| Batch.UnwritableEndsRun | app.py:136-138 | an accepted entry whose file cannot be opened, with no failure before it, ends the run there, and only earlier entries were written |
| Batch.BatchCompletesWithOnePerValid | app.py:116-139 | with no failing entry the run completes and makes exactly as many writes as there are entries that pass the check; invalid entries do not stop it |
| Batch.BlankNameIssuedButNotBatched | app.py:117-120 | a whitespace-only name is skipped by the batch path but issued with an empty display name by the interactive path |
| Rewrite.Replace | app.py:106 | without an occurrence of the pattern, or when the replacement is the pattern itself, the string comes back unchanged |
| Rewrite.ReplaceAtFirst | app.py:106 | the replace copies everything before the leftmost occurrence, writes the replacement, and continues after the occurrence |
| Rewrite.ReplaceIsSplitJoin | app.py:106 | the replace equals splitting on the pattern and joining with the replacement, so every character outside the rewritten occurrences is kept in order |
| Rewrite.SplitJoinRoundTrip | app.py:106 | splitting on the pattern and joining with it gives back the input |
| Rewrite.ReplaceLength | app.py:106 | the length changes by the replacement's length minus the pattern's, once per non-overlapping occurrence |
| Rewrite.FixImgPaths | app.py:105-106 | the markup loses one character per `/static/` occurrence and equals the pieces between them joined with `static/` |
| Rewrite.FixImgPathsUnchangedIff | app.py:105-106 | the markup is unchanged exactly when it holds no `/static/` |
| Rewrite.FixImgPathsNotIdempotent | app.py:105-106 | the rewrite is not idempotent: `//static/` becomes `/static/`, which a second pass turns into `static/` |

## Left out

- Flask routes, `render_template` and the start-up banner (app.py:37-40, 76-82, 157-170): HTTP and page plumbing. The interactive outcome is the record or the error, not the page.
- Jinja2 rendering (app.py:86, 99-100, 134): an external library, taken as a function parameter.
- PNG export through imgkit, and all of `export_png.py`: calls into wkhtmltoimage and a headless browser. An export failure happens after the HTML file has been written.
- The MD5 algorithm and UTF-8 encoding: a library primitive. The digest is a parameter with only its hex shape assumed, and no collision property is stated.
- `datetime.now()`, `isoformat()` and `strftime` (app.py:63, 72, 81, 92, 124): clock and locale formatting. The readings are string parameters.
- File existence checks, reads and writes, and JSON parsing and serialisation: the files are given as their parsed contents, or `None` when absent. `CertificateHash` and the path names are computed; the bytes written are not modelled.
- Roster values other than strings, integers and absent keys: JSON `null`, booleans, floats, lists and objects. In the batch path a `null` name raises at `.strip()`; the interactive path refuses it as falsy.
- Rosters that are not a list of objects. Both paths iterate the roster (app.py:55, 116):
  - iterating a JSON number, `null` or boolean raises `TypeError`;
  - a non-empty object or string, or a list holding non-objects, yields items whose `.get` raises once the loop reaches them;
  - an empty object or string acts as an empty roster, so the interactive path answers "Invalid roll number" and the batch run ends with nothing written.

  The model's roster is a sequence of entries, so none of these shapes can be given to it.
- Malformed `info.json` or `certificates.json`: `json.load` raises and the request or run fails. There is no inline message for this, and the model does not represent unparsable files.
- The lost-update race on the store's load, append and write-back: concurrent requests are not modelled.
- Text.ParseNat: parses digit strings of any length. Python 3.11 and later, and the 2022 security releases of 3.7 to 3.10, make `int()` raise for more than 4300 digits. There, such a position passes `isdigit` and then raises at app.py:60, so nothing is stored, or at app.py:123, which ends the batch run. The model issues or emits the certificate, because the limit depends on the interpreter version and its configuration.
- Batch.BatchCompletesWithOnePerValid: counts writes, not distinct files. Entries whose rolls print the same (a repeated `"101"`, or `"1"` and `1`) write to one path, and the later write replaces the earlier file. `Batch.HtmlPathInjective` states which writes share a path string. Different path strings can still name one file, and the later write replaces it as well: rolls `b` and `./b`, or `a/../b` and `b`, and on a case-insensitive file system `A1` and `a1`. The model compares paths as strings and has no file system to resolve them in.
- `os.makedirs` for the output directory (app.py:102): it is assumed to succeed. Only opening each certificate file can fail, through `writable`.
- Text.IsDigit: accepts only the ASCII digits `0`-`9`. Python's `isdigit` also accepts other Unicode digits, for which `int()` either gives the same value or raises.
- `print` diagnostics in the batch path (app.py:114, 121, 139, 153, 155): console output only.
- The page-only template variables `event_name` and `event_date` of the interactive path (app.py:80-81): they affect only the rendered page. The batch path's `CertData` carries them because they feed the rendered file.
- `SECRET_KEY` and `CERTIFICATE_PORT` (app.py:8-10): server configuration.
