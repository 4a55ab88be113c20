# pywinrm session layer, modelled in Dafny

This project models the session layer of pywinrm, the Python WinRM client, as
defined in `winrm/__init__.py`:

- `Response`, the `(std_out, std_err, status_code)` triple of one remote command;
- `Session.run_cmd`, which runs one command in a fresh shell;
- `Session.run_ps`, which sends a PowerShell script as one
  `powershell -encodedcommand` line when its encoded form fits the envelope
  (`maxEnvelopeSize`, 2000 by default);
- `Session.run_ps_long`, which otherwise uploads the script to a temp file.
  It creates the file, writes the base64 text in chunks with `ECHO … > file`
  and then `ECHO … >> file`, converts the file back, runs it and deletes it.
  Every stage but the run is checked, and a failed stage closes the shell and
  raises;
- `_clean_error_msg`, which turns a PowerShell CLIXML error stream into text;
- `_strip_namespace`, which removes `xmlns="…"` declarations before parsing;
- `_build_url`, which turns a target such as `server01` into
  `http://server01:5985/wsman`.

The remote side is an oracle. Within one run the commands are issued in a
fixed order, so the reply to the `k`-th command issued (counting from 0) is
`reply(k)`. A run is the list of shell events the session asks for
(`OpenShell`, `RunCommand(cmd)`, `CleanupCommand`, `CloseShell`) together
with its outcome. The outcome is one of:

- a returned `Response`;
- the exception of a failed stage, `stage message + "\n" + std_err`;
- the encoding error of a non-ASCII script.

The XML parser is also an oracle. It either fails, or yields the texts of the
root's direct `S` children, where `None` is an element without text. The
run functions take the diagnostic normaliser as a parameter `clean`; the
session's own normaliser is `Cleaner(read)`, which is `_clean_error_msg` with
the parser `read`. What is proved about the runs therefore holds for that
normaliser in particular. Base64
(RFC 4648, section 4) and UTF-16LE are written out, each with a decoder and a
round-trip proof.

Modules:

- `Wrappers` holds `Option`.
- `Bytes` holds `byte`.
- `Text` holds the Python `str` operations used: `startswith`, `replace`, `strip`, `lstrip` and `str(n)`.
- `Base64` and `Utf16` hold the encoders and their decoders.
- `Chunking` holds the `range(0, len, M)` slicing.
- `Diagnostics` holds `_clean_error_msg` and `_strip_namespace`.
- `Url` holds `_build_url`.
- `Session` holds `Response`, `run_cmd`, `run_ps_long` and `run_ps`.

`b64encode(script)` on line 92 is applied to the script text itself, without
a UTF-16LE step. The model reads it with Python 2 semantics: the text is
implicitly encoded as ASCII, and a character outside ASCII raises
`UnicodeEncodeError`. That error happens after the temp file was created and
escapes without `close_shell`, so on that path the shell stays open
(`RunPsLongShell`).

## Model

| member | source | states |
|---|---|---|
| Text.Strip | winrm/__init__.py:89 | `strip()` returns the infix of its argument left after removing leading and trailing whitespace; the result has no whitespace at either end |
| Text.StripIdempotent | winrm/__init__.py:173 | stripping an already stripped text changes nothing |
| Text.LStripChar | winrm/__init__.py:203 | `lstrip('/')` removes exactly a run of leading slashes: the result is a suffix, everything removed is a slash, and the result does not start with one |
| Text.ReplaceAbsent | winrm/__init__.py:161 | `replace` leaves a text that does not contain the pattern unchanged |
| Text.NatToStringRoundTrip | winrm/__init__.py:99 | the decimal rendering of the chunk offset in a stage message reads back as that offset |
| Text.NatToStringInjective | winrm/__init__.py:99 | distinct chunk offsets give distinct stage messages |
| Chunking.OffsetsCount | winrm/__init__.py:93 | `range(0, len, M)` has ceil(len / M) offsets |
| Chunking.ChunkAt | winrm/__init__.py:93-94 | chunk `i` is the slice at offset `i * M`, clipped to the payload |
| Chunking.ChunkSizes | winrm/__init__.py:93-94 | every chunk is non-empty and at most M long, and every chunk but the last is exactly M long |
| Chunking.FlattenChunks | winrm/__init__.py:93-94 | the chunks, concatenated in order, give back the whole payload |
| Chunking.ExampleThreeChunks | winrm/__init__.py:93-94 | with M = `MaxEnvelopeSize` (2000, the default), a 4500-character payload is sent as chunks of 2000, 2000 and 500 |
| Base64.EncodeLength | winrm/__init__.py:92 | the base64 text of n bytes has 4 * ceil(n / 3) characters |
| Base64.EncodeIsBase64Text | winrm/__init__.py:92 | `b64encode` output consists of alphabet characters, with `=` only in the last two places and, when present, ending the text |
| Base64.DecodeEncode | winrm/__init__.py:102-107 | decoding the base64 text, as `FromBase64String` does on the remote side, gives back the bytes |
| Base64.EncodeMan | winrm/__init__.py:92 | the three octets of `Man` encode to `TWFu`: one full three-octet group, with no padding |
| Base64.EncodeOneOctet | winrm/__init__.py:92 | the single octet `M` encodes to `TQ==`: two characters, then two pads |
| Base64.EncodeTwoOctets | winrm/__init__.py:92 | the octets 251 and 255 encode to `+/8=`, the last two alphabet entries followed by one pad |
| Base64.EncodeFoobar | winrm/__init__.py:92 | `foobar` encodes to `Zm9vYmFy`, the test vector of RFC 4648, section 10 |
| Base64.EncodeInjective | winrm/__init__.py:92 | distinct byte strings have distinct base64 texts |
| Utf16.DecodeEncode | winrm/__init__.py:128 | the UTF-16LE bytes of a script decode back to the script |
| Utf16.EncodeLength | winrm/__init__.py:128 | a script encodes to 2 to 4 bytes per character, and to exactly 2 per character without supplementary characters |
| Diagnostics.MatchEnd | winrm/__init__.py:179 | a match of `xmlns=*"[^"]*"` is the keyword, some `=`, then one quoted run without inner quotes |
| Diagnostics.FindAll | winrm/__init__.py:179-180 | every text `finditer` reports is a whole match of the pattern |
| Diagnostics.FindAllNeedsKeyword | winrm/__init__.py:179-180 | markup without `xmlns` has no match |
| Diagnostics.RemoveEach | winrm/__init__.py:181-182 | deleting the matched texts never lengthens the markup |
| Diagnostics.StripNamespace | winrm/__init__.py:176-185 | `_strip_namespace` never lengthens the markup, and leaves markup without `xmlns` unchanged |
| Diagnostics.MatchEndFinds | winrm/__init__.py:179 | the pattern matches from `p` to `e` exactly when the text between is a namespace declaration: the keyword, some `=`, one quoted run |
| Diagnostics.FindAllEmpty | winrm/__init__.py:179-180 | `finditer` from `p` reports nothing exactly when no position from `p` on starts a match |
| Diagnostics.FindAllLeftmost | winrm/__init__.py:179-180 | the leftmost match is reported first, and the search resumes where it ended |
| Diagnostics.DeclarationIsOnlyMatch | winrm/__init__.py:179-180 | in markup whose only `xmlns` is one declaration, `finditer` reports exactly that declaration |
| Diagnostics.DeclarationDeleted | winrm/__init__.py:181-182 | replacing that declaration by the empty string leaves the text before it followed by the text after it |
| Diagnostics.StripSingleDeclaration | winrm/__init__.py:176-185 | markup with one namespace declaration and no other `xmlns` loses exactly that declaration and keeps everything else, in order |
| Diagnostics.StripNamespaceExample | winrm/__init__.py:176-185 | `<Objs xmlns="u"/>` becomes `<Objs />` |
| Diagnostics.JoinTexts | winrm/__init__.py:157-161 | concatenating the `S` texts fails exactly when some `S` element has no text |
| Diagnostics.JoinTextsSingle | winrm/__init__.py:157-161 | a lone `S` text joins to itself with each CR LF escape turned into a newline |
| Diagnostics.JoinTextsAppend | winrm/__init__.py:157-161 | the texts are joined in document order, element by element: joining `a + b` gives the join of `a` followed by the join of `b`, and fails when either fails |
| Diagnostics.CleanErrorMsgCases | winrm/__init__.py:142-174 | the message comes back unchanged without the CLIXML marker, when parsing fails, when an `S` element has no text, or when the joined text is empty; otherwise the result is the joined text, stripped |
| Diagnostics.CleanedHasNoEdgeSpaces | winrm/__init__.py:171-173 | a replaced message has no whitespace at either end |
| Diagnostics.BlankDiagnosticVanishes | winrm/__init__.py:171-173 | a CLIXML stream whose only `S` text is whitespace becomes the empty string |
| Diagnostics.CleanSingleText | winrm/__init__.py:150-173 | a single `S` text becomes that text with each CR LF escape turned into a newline, then stripped |
| Diagnostics.CleanTwoTexts | winrm/__init__.py:150-173 | two `S` texts become the first then the second, each with its own escapes replaced, joined and then stripped |
| Diagnostics.CleanTwoTextsExample | winrm/__init__.py:150-173 | the `S` texts `"a "` then `" b"` give `"a  b"` |
| Diagnostics.SplitEscapeKept | winrm/__init__.py:157-173 | an escape split across two `S` elements (`_x000D_` ending one, `_x000A_` starting the next) is left as it is, because each text is replaced on its own |
| Diagnostics.CleanErrorMsgExample | winrm/__init__.py:150-173 | `"#< CLIXML\r\n"` followed by one `S` element holding `Error_x000D__x000A_Continued` becomes `"Error\nContinued"` |
| Url.SchemeGroup | winrm/__init__.py:190 | a scheme read from the target is `http` or `https`, in any letter case |
| Url.PortEnd | winrm/__init__.py:190 | the port group is either absent or a `:` followed by at least one decimal digit |
| Url.PathEnd | winrm/__init__.py:190 | the path group is empty, `/`, `wsman` or `/wsman`, in any letter case |
| Url.ParseTarget | winrm/__init__.py:189-191 | a match ends within the target and yields a scheme word, a non-empty host of `[0-9a-z-_.]`, a port of digits and a path group |
| Url.DefaultsAreWellFormed | winrm/__init__.py:193-199 | whatever fills the scheme and port slots (the matched group, or the transport's default `https`/`http` and `5986`/`5985`) is a scheme word and a port number, so the built address is again in the accepted form |
| Url.PathGroupStripped | winrm/__init__.py:203 | stripping the leading slash from a non-empty path group leaves an empty path or `wsman` |
| Url.BuiltPathIsPathWord | winrm/__init__.py:200-203 | the path of the built address is empty or `wsman` |
| Url.BuildUrlWellFormed | winrm/__init__.py:189-203 | a matching target gives `scheme://host:port/path` from its groups and the defaults, with a missing path turned into `wsman` |
| Url.NoSchemeBeforeStop | winrm/__init__.py:190 | a host name followed by a character that cannot continue it is read from position 0, with no scheme |
| Url.TrailingTextIgnored | winrm/__init__.py:189-203 | text after a host that can start neither a port nor a path is ignored: the address is built from the host and the defaults |
| Url.ParsePrefix | winrm/__init__.py:189-191 | matching only the part of a target the pattern consumed gives back the same groups |
| Url.TextAfterMatchIgnored | winrm/__init__.py:187-203 | for any matching target, whatever follows the matched part does not change the built address |
| Url.ServerExample | winrm/__init__.py:189-203 | `server01` becomes `http://server01:5985/wsman`, or `https://server01:5986/wsman` over `ssl` |
| Url.ParseRendered | winrm/__init__.py:189-191 | a complete address `scheme://host:port/path` parses back into exactly its own parts |
| Url.CompleteAddressPreserved | winrm/__init__.py:187-203 | a complete address is returned unchanged, whatever the transport |
| Url.BuildUrlIdempotent | winrm/__init__.py:187-203 | building an address from a built address changes nothing |
| Session.PowershellLineCarriesScript | winrm/__init__.py:71-73 | the `powershell -encodedcommand` line carries the script intact: its encoded part decodes to the UTF-16LE bytes of the script and back to the script |
| Session.SessionShape | winrm/__init__.py:42-49 | a session opens its shell first and once, and closes it at most once, as the last event |
| Session.SessionCommands | winrm/__init__.py:42-49 | the commands read back from a session's events are the commands it ran, in order |
| Session.CommandsIssued | winrm/__init__.py:61-64 | each command is run, then cleaned up, in the order issued |
| Session.RunCmd | winrm/__init__.py:42-49 | `run_cmd` runs its one command in a shell it opens and closes, and returns the reply untouched |
| Session.Received | winrm/__init__.py:60-69 | only a non-empty error text is normalised; the output and status are kept |
| Session.BlankDiagnosticPasses | winrm/__init__.py:75-80 | a stage whose raw error text is a blank CLIXML stream, with status 0, passes the check, because the check looks at the normalised text |
| Session.Passing | winrm/__init__.py:75-99 | the checked commands from a position on pass up to the first one that fails |
| Session.AsciiBytes | winrm/__init__.py:92 | the script is encoded exactly when every character is ASCII, and then byte for byte |
| Session.AsciiRoundTrip | winrm/__init__.py:105 | reading the uploaded bytes as ASCII on the remote side gives back the script |
| Session.WriteStepAt | winrm/__init__.py:93-99 | chunk `i` is written at offset `i * M`, with `>` for the first chunk and `>>` for every later one |
| Session.WriteStepsCarryPayload | winrm/__init__.py:92-99 | there are ceil(len / M) writes; each carries its chunk of at most M characters; only the first uses `>`; each stage names offset `i * M`; and the chunks concatenate to the payload |
| Session.UploadCarriesScript | winrm/__init__.py:92-107 | the concatenated chunks decode to the script's bytes, whose ASCII reading is the script |
| Session.UploadStepsStaged | winrm/__init__.py:86-109 | each checked upload step is reported under the stage of its own command: the write that is step `i` names offset `i * M`, and only step 0 uses `>` |
| Session.PlanLayout | winrm/__init__.py:82-117 | the full plan is the creation, the chunk writes and the conversion, the run, then the deletion |
| Session.PlanLength | winrm/__init__.py:82-117 | the plan has one command per chunk plus four, and starts with the creation of the temp file |
| Session.RunStepsShape | winrm/__init__.py:86-121 | the upload runs a prefix of the plan, of at least two commands, in one shell it closes |
| Session.StepFailureAborts | winrm/__init__.py:75-80 | a failed chunk write or conversion is the last command run and its reply fails the check; every earlier checked command passed; the exception carries its stage, which for the write that is step `i` names offset `i * M`, and its normalised error text |
| Session.DeletionFailureAborts | winrm/__init__.py:115-117 | a failed deletion raises with the deletion stage after the whole plan ran, in order, and the exception carries the deletion's normalised error text |
| Session.RunStepsAborts | winrm/__init__.py:75-117 | whenever the upload raises, it stopped at a failed command whose stage it reports (a chunk write with the offset `i * M` of its own step `i`), and every earlier checked command passed |
| Session.RunStepsStopsAt | winrm/__init__.py:86-109 | when checked step `n` is the first to fail, the upload ran the creation and steps 0 to `n` in one closed shell and raises with step `n`'s stage and reply |
| Session.RunStepsPastSteps | winrm/__init__.py:108-119 | when every checked step passes, the whole plan runs in one closed shell and only the deletion can still raise |
| Session.FailedStepIsLast | winrm/__init__.py:86-109 | a step failure other than the deletion is the last command run, and its stage is the one raised |
| Session.ChunkFailureIsLast | winrm/__init__.py:93-99 | a failed chunk write is the last command run and reports the offset of its own chunk |
| Session.UploadChunkFailure | winrm/__init__.py:92-99 | in the upload, the failed write is that of chunk `i` of the base64 text, `>` only for chunk 0, and the exception names offset `i * M` |
| Session.RunPsLongChunkFailure | winrm/__init__.py:92-99 | a chunk-write exception from `run_ps_long` means the script was ASCII, and it names the offset `i * M` of chunk `i`, the one whose write was the last command run |
| Session.RunStepsReturns | winrm/__init__.py:101-121 | the upload returns exactly when every checked command passes; it then ran the whole plan and returns the run's normalised reply |
| Session.InOneShellShape | winrm/__init__.py:58-119 | a run in one shell opens it first and once, and closes it once, last, unless it ended in an encoding error |
| Session.CreationFailure | winrm/__init__.py:82-88 | a failed creation runs only that command, closes the shell, and raises with the creation stage |
| Session.EncodingFailure | winrm/__init__.py:92 | a non-ASCII script stops after the creation, with the shell left open |
| Session.UploadFollowsPlan | winrm/__init__.py:89-121 | after a successful creation of an ASCII script, the long path runs a prefix of its plan in one closed shell, and any exception comes from a failed stage |
| Session.RunPsLongInOneShell | winrm/__init__.py:58-121 | every way through `run_ps_long` is one shell session, closed unless the script could not be encoded |
| Session.RunPsLongShell | winrm/__init__.py:58-119 | `run_ps_long` opens one shell, first, and closes it exactly once, as the last event, except after an encoding error |
| Session.RunPsLongStartsWithCreation | winrm/__init__.py:82-88 | the first command of `run_ps_long` is always the creation of the temp file |
| Session.CreationFailureFollowsPlan | winrm/__init__.py:75-88 | a failed creation runs the first command of the plan and nothing else |
| Session.RunPsLongFollowsPlan | winrm/__init__.py:82-121 | for an ASCII script, the commands run are a prefix of the plan: creation, chunks in offset order, conversion, run, deletion |
| Session.RunPsLongEncodeError | winrm/__init__.py:86-92 | the encoding error happens exactly when the creation passed and the script is not ASCII |
| Session.RunPsLongAborts | winrm/__init__.py:75-80 | whenever `run_ps_long` raises, the shell is closed, no command follows the failed one, the stage matches the failed command (for a chunk write, offset `i * M` of its step `i`), and the message is the stage message, a newline, then the normalised error text |
| Session.UploadReturnsWhen | winrm/__init__.py:101-121 | after a successful creation, the long path returns exactly when every checked command of the plan passes |
| Session.UploadReturnsWhat | winrm/__init__.py:111-121 | after a successful creation, a returning long path ran the whole plan and returns the normalised reply to the run |
| Session.CreationFailureNotReturned | winrm/__init__.py:75-88 | a failed creation returns nothing, and the plan's checks do not all pass |
| Session.RunPsLongReturnsWhen | winrm/__init__.py:108-121 | for an ASCII script, `run_ps_long` returns exactly when every checked command passes; the run of the script is not checked, so its failure never makes the call raise |
| Session.RunPsLongReturnsWhat | winrm/__init__.py:111-121 | when `run_ps_long` returns, it ran the whole plan in order, deletion included, and returns the normalised reply to the run of the script |
| Session.RunPsDirect | winrm/__init__.py:128-140 | a script whose encoded form fits runs as one `powershell -encodedcommand` line in its own closed shell, never raises, and has only a non-empty error text normalised |
| Session.RunPsLongPath | winrm/__init__.py:132-133 | a script whose encoded form is longer than the envelope takes the long path, which starts by creating the temp file |
| Session.RunPsPathChoice | winrm/__init__.py:128-135 | the first command is the creation of a temp file exactly when the encoded script is longer than the envelope |
| Session.RunPsShell | winrm/__init__.py:123-140 | `run_ps` opens one shell, first, and closes it once, last, unless the long path stopped on an encoding error |

## Operations

The operations themselves are functions that compute, and the members in the
table above state their properties:

| operation | source | properties stated by |
|---|---|---|
| Session.Response | winrm/__init__.py:20-24 | Session.Received, Session.RunCmd |
| Session.RunCmd | winrm/__init__.py:42-49 | Session.RunCmd, Session.SessionShape, Session.SessionCommands |
| Session.Line, Session.EncodedCommand | winrm/__init__.py:71-73 | Session.PowershellLineCarriesScript |
| Session.RunPsLong | winrm/__init__.py:51-121 | Session.RunPsLongShell, Session.RunPsLongFollowsPlan, Session.RunPsLongAborts, Session.RunPsLongChunkFailure, Session.RunPsLongReturnsWhen, Session.RunPsLongReturnsWhat |
| Session.RunSteps | winrm/__init__.py:86-121 | Session.RunStepsShape, Session.RunStepsAborts, Session.RunStepsReturns, Session.UploadChunkFailure |
| Session.RunPs | winrm/__init__.py:123-140 | Session.RunPsDirect, Session.RunPsLongPath, Session.RunPsPathChoice, Session.RunPsShell |
| Diagnostics.CleanErrorMsg | winrm/__init__.py:142-174 | Diagnostics.CleanErrorMsgCases, Diagnostics.JoinTextsAppend, Diagnostics.CleanSingleText, Diagnostics.CleanTwoTexts, Diagnostics.CleanErrorMsgExample |
| Diagnostics.StripNamespace | winrm/__init__.py:176-185 | Diagnostics.StripSingleDeclaration, Diagnostics.StripNamespaceExample |
| Url.BuildUrl | winrm/__init__.py:187-203 | Url.BuildUrlWellFormed, Url.CompleteAddressPreserved, Url.TextAfterMatchIgnored, Url.ServerExample |
| Base64.Encode | winrm/__init__.py:92 | Base64.DecodeEncode, Base64.EncodeLength, Base64.EncodeIsBase64Text, Base64.EncodeMan, Base64.EncodeFoobar |
| Utf16.Encode | winrm/__init__.py:128 | Utf16.DecodeEncode, Utf16.EncodeLength |
| Chunking.Chunks | winrm/__init__.py:93-94 | Chunking.ChunkAt, Chunking.ChunkSizes, Chunking.FlattenChunks |
| Text.Replace | winrm/__init__.py:161, 182 | Text.ReplaceAbsent, Diagnostics.DeclarationDeleted |
| Text.IsPrefix | winrm/__init__.py:147 | Diagnostics.CleanErrorMsgCases |
| Text.Strip | winrm/__init__.py:89, 173 | Text.Strip, Text.StripIdempotent |
| Text.NatToString | winrm/__init__.py:99 | Text.NatToStringRoundTrip, Text.NatToStringInjective |

`Text.Strip` follows Python 2.7's `unicode.strip()`, whose whitespace table
still counts U+180E MONGOLIAN VOWEL SEPARATOR; Python 3 dropped it.

## Left out

- `winrm.protocol.Protocol` is not part of this model. Shells, SOAP, transport, authentication and timeouts are replaced by the reply oracle and the event list.
- Exceptions raised by the protocol calls themselves are left out. The code gives no close-shell guarantee on those paths, and none is claimed.
- `Session.__init__` (lines 36-40) only unpacks credentials and builds the protocol.
- `Response.__repr__` (lines 26-29) is display formatting only.
- The `print` warning on line 166 is console output only.
- The `FEATURE_*` constants (lines 14-17) are not used by the modelled code.
- `useResultLogger` only affects logging in the protocol, so it is ignored.
- The XML parser and the regular-expression engine are left out. The parser is an oracle (`XmlReader`). The two patterns are written out as hand-made matchers.
- Python 3 semantics of lines 73 and 92 are left out:
  - `%s` on bytes in `make_ps_command` would put `b'…'` in the command line. The model uses the plain base64 text.
  - `b64encode` on text raises `TypeError`. The model follows Python 2 and reads it as an implicit ASCII encode.
- The command lines of the long path are kept as a `Command` datatype, and `Line` gives their exact text. The text of the commands the session asks the remote side to run is not interpreted.
- RunPsLong: `maxEnvelopeSize` must be positive. The source's `range` raises for a step of 0 and yields no chunks for a negative step; neither case is modelled.
- Url.ParseTarget: `\d` and `(?i)` are read as ASCII digits and ASCII case folding. Python 3's Unicode digits and case-folding extras (such as the Kelvin sign matching `k`) are not modelled.
- Url.BuildUrl: a target where the pattern does not match gives `None`. In the source that case raises `AttributeError` at `match.group`.
- Text.Strip: line 89 strips `std_out` with `unicode.strip()` in the model. Under Python 2 that output may be a byte `str`, whose `strip()` removes only ASCII whitespace, so a byte such as 0x85 or 0xA0 at either end would stay.
