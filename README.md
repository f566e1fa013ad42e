# rpass in Dafny

`rpass.py` changes one user's password on a fleet of Raritan PDUs. It works in five steps:

1. It refuses the `admin` user.
2. It validates the host file.
3. It reads the current password twice and logs into every host with it, checking that no two hosts are the same device.
4. It asks for confirmation and reads the new password.
5. It changes the password host by host, stopping at the first failure.

This project models that logic and proves what it promises. The model has one module per part of the script:

- `Text` models the parts of Python's `str` the script relies on, for ASCII text:
  - `isspace` (`IsSpace`), `lower` (`Lower`), `split()` (`Split`) and `strip()` (`Strip`);
  - the decimal rendering of integers (`IntToDecimal`).
- `HostFile` models the host file.
  - The file is a `seq<string>` of lines. A line may still carry its newline, as Python's file iteration delivers it.
  - `Entries` lists every host token of the lines that are not skipped, in file order, each paired with its 1-based line number.
  - `BasicHostFileValidation` is the first pass (`basichostfilevalidation`).
- `Prompts` models the prompts and the password entry:
  - `PadOutPrompts` is `padoutprompts`.
  - `GetPassword` is `getpassword`. The terminal is a stream `typed: nat -> string`, where `typed(p)` is the answer to the `p`-th hidden read. The method returns the password, the next read position and the prompts it showed.
- `Markup` models `detag`, the markup stripping of device error messages.
- `Verification` models the login pass (`checkusernamepassword`).
  - The device query `checkhost` is an oracle `serialOf: string -> string`: the serial number a host reports, or `""` when the login or the query fails.
  - The method returns its verdict and the hosts it queried, in order.
- `ErrorCatalog` models `error2text`.
- `Rotation` models two things:
  - how `setpass` maps a device answer to 0 or 1;
  - the rotation pass `setnewpasswords`.

  The device answer is an oracle `outcomeOf: string -> ChangeOutcome`: either a transport failure with a message, or a return code.
- `Driver` models the decision logic of `main`.
  - `MainSpec` states what a run does as a function.
  - `Rpass` is the imperative `main`, proved equal to `MainSpec`.
  - A `Run` records where the run stopped, the hosts queried by the login pass and the hosts contacted by the rotation pass. `ExitCode` gives the exit status.

The three passes over the host file are mutable loops in the script. They are modelled as methods with loops and invariants:

- the validation meets `ValidationMeets` on the file's entries (`Entries`), which fixes the verdict;
- the login pass is proved equal to the reference function `Outcome`;
- the rotation pass is proved equal to the reference function `RotationOutcome`.

The promises of the two later passes are then proved as lemmas about those functions. Each pass is split the same way:

- an outer loop over the lines;
- a method for one line (the skip test and the split);
- a method for the inner loop over that line's hosts;
- in the login pass, a further method for the body of that loop.

The dictionaries `hosts` and `serialnumbers` are `map` variables. Each is tied to a recursive function of the entries seen so far: `KeyLines`, `HostLines` and `SerialLines`.

Two facts about the code shape the model:

- Blank lines are not caught by the `len(line) == 0` tests (rpass.py:49, 181, 299), which never fire because every line keeps its newline; `split()` gives them no token.
- The host-count message is printed after the validation, before the password is read (rpass.py:342-347).

## Model

| member | source | states |
|---|---|---|
| HostFile.BasicHostFileValidation | rpass.py:41-70 | The verdict meets `ValidationMeets` on the file's entries. It accepts exactly when there is at least one host and no two hosts are equal ignoring case, and the count is then the number of host tokens. "No host names" is reported exactly when the file has no host token. A duplicate report names the first entry that repeats an earlier one ignoring case, its line, and the line of that earlier entry. |
| HostFile.ScanFileLine | rpass.py:45-62 | One turn of the outer loop. A skipped line leaves the count and the dictionary unchanged; any other line has all its tokens recorded. The count afterwards is the number of tokens on the lines read so far. A repeat ends the scan with a verdict meeting `ValidationMeets`. |
| HostFile.ScanLine | rpass.py:55-62 | The inner loop over one line's tokens. Either every token is recorded and the count grows by their number, or it stops at the first entry whose lower-cased name is already a key. It then reports that entry with the line the dictionary holds for the key. The dictionary always equals `KeyLines` of the entries scanned, and those entries have no repeat. |
| HostFile.RepeatReported | rpass.py:56-59 | The line recorded for a repeated lower-cased name is the line of its first occurrence. The resulting duplicate report meets `ValidationMeets`. |
| HostFile.NewKeyStep | rpass.py:56-61 | Recording a name whose lower-cased form is not yet a key keeps the scanned entries free of case-insensitive repeats. |
| HostFile.KeyLinesHas | rpass.py:61 | Every scanned entry's lower-cased name is a key of the dictionary. While there is no repeat, the key maps to that entry's line. |
| HostFile.KeyLinesFrom | rpass.py:61 | Every key of the dictionary is the lower-cased name of a scanned entry. |
| HostFile.ScanCompleted | rpass.py:64-70 | After a scan without repeat, the count decides the verdict: "no host names" when it is 0, acceptance with the count otherwise. |
| HostFile.ValidationCode | rpass.py:56-70 | The integer returned is -1 or the host count of an acceptance. Every acceptance of a non-empty file returns its count. |
| HostFile.CountSpec | rpass.py:62 | The counter after the first n lines equals the number of entries those lines contribute. That number is at most the total number of entries. |
| HostFile.EntryOrigin | rpass.py:45-55 | Every entry has a line number within the file. Its host is one of the whitespace-separated tokens of that line, and the line is not skipped. |
| HostFile.NoHostsFromLine | rpass.py:49-55 | A comment line, an empty line or a line of only whitespace contributes no entry. |
| Text.SplitStrip | rpass.py:187-189 | Stripping a line before splitting it changes none of its tokens. So the login and rotation passes, which strip, see the same hosts as the validation, which does not. |
| Text.SplitTokens | rpass.py:55 | Every token of `split()` is non-empty and holds no whitespace. |
| Text.LowerSpec | rpass.py:56 | Lower-casing keeps the length and maps each character by itself. |
| Prompts.PadOutPrompts | rpass.py:74-88 | Both padded prompts have the same length, the longer original length plus 5, and both end with ':'. |
| Prompts.PadOutPromptsShape | rpass.py:75-85 | Each padded prompt is its own text, then " ...", then only dots, then ':'. The longer prompt gets no dots; with equal lengths neither gets any. |
| Prompts.DotsSpec | rpass.py:80-83 | `'.' * n` has length n and holds only dots. |
| Prompts.GetPassword | rpass.py:92-120 | The password returned, the next read position and the prompts shown are those of the protocol `Session`. An attempt reads the first prompt, and reads the second only after a non-empty first answer. Two equal non-empty answers end the protocol; after three attempts it gives up with "". |
| Prompts.SessionSound | rpass.py:107-120 | A non-empty password is returned only when the last two reads both gave it. |
| Prompts.SessionReads | rpass.py:107-113 | The protocol shows exactly one prompt per read and never moves backwards. |
| Prompts.SessionBounded | rpass.py:97-105 | At most two reads per attempt and at most three attempts: from attempt 1, at most six reads. |
| Prompts.SessionShowsPrompts | rpass.py:107-113 | Every read shows one of the two prompts, and the first prompt opens the protocol. |
| Prompts.SessionReadsOnlyItsEntries | rpass.py:100-105 | The outcome depends only on the reads the protocol made. What would have been typed at a fourth attempt is never looked at. |
| Prompts.ThreeEmptyAnswersGiveUp | rpass.py:100-111 | Three empty first answers give up after exactly three reads, showing the first prompt three times. An empty first answer does not consume a second read. |
| Prompts.FirstAttemptAccepted | rpass.py:107-120 | Two equal non-empty answers at the first attempt are returned after two reads. |
| Markup.Detag | rpass.py:124-139 | The result is `DetagText`, defined as follows: '<' enters a tag, '>' leaves it, every other character outside a tag is kept (a newline as a space), and the kept text is stripped. |
| Markup.DetagClean | rpass.py:124-139 | The result holds no '<', no '>' and no newline, and has no whitespace at either end. |
| Markup.ScanPlain | rpass.py:130-137 | The kept text never holds '<', '>' or a newline. |
| Markup.ScanOfPlain | rpass.py:128-137 | A text without '<', '>' and newlines passes the scan unchanged and leaves it outside a tag. |
| Markup.DetagPlain | rpass.py:124-139 | A trimmed text without markup characters or newlines is returned as it is. |
| Markup.DetagIdempotent | rpass.py:124-139 | Removing markup a second time changes nothing. |
| Text.StripSpec | rpass.py:139 | `strip()` leaves a trimmed string: the input without an all-whitespace prefix and an all-whitespace suffix. |
| Verification.CheckUsernamePassword | rpass.py:171-220 | The verdict and the queried hosts are `Outcome` of the file's entries under the device oracle. |
| Verification.CheckFileLine | rpass.py:178-189 | One turn of the outer loop. A skipped line changes nothing. Any other line is stripped and its hosts are checked. Either the pass reaches the end of the line in step with `Outcome`, or it stops with `Outcome`'s verdict. |
| Verification.CheckLine | rpass.py:189-212 | The inner loop over one line's hosts. Either every host is checked and the count grows by their number, or the pass stops with `Outcome`'s verdict and queried hosts. |
| Verification.CheckHost | rpass.py:192-212 | One host, checked in the source's order: a name already in `hosts`, then a failed query, then a serial number already in `serialnumbers`. Each of these stops the pass with `Outcome`'s verdict. Otherwise the host and its serial number are recorded in step with `Outcome`. |
| Verification.OutcomeMeets | rpass.py:178-220 | `Outcome` meets `VerificationMeets`, in five parts. (1) Success holds exactly when there is a host and no repeated name, no failed login and no repeated serial number; it then returns the host count and has queried every host in file order. (2) "Empty" holds exactly when there is no host. (3) A repeated name is reported at the first entry where any stopping condition holds, with the line of its earlier occurrence; that host is not queried. (4) A failed login is reported at its host, which was the last one queried. (5) A repeated serial number is reported with the line of the host that first reported it; no host after the stopping entry is queried. |
| Verification.ResumeMeets | rpass.py:178-220 | The pass resumed after a prefix without a stopping condition meets `VerificationMeets`. |
| Verification.RepeatReported | rpass.py:192-195 | A name already in `hosts` repeats an earlier entry, whose line the dictionary holds. Stopping there meets `VerificationMeets`. |
| Verification.LoginFailureReported | rpass.py:200-205 | A failed query at a host after a clean prefix is a reported stop meeting `VerificationMeets`. |
| Verification.SerialRepeatReported | rpass.py:207-210 | A serial number already in `serialnumbers` was reported by an earlier host, whose line the dictionary holds. Stopping there meets `VerificationMeets`. |
| Verification.NewHostStep | rpass.py:192-197 | Recording a name not yet in `hosts` keeps the names seen pairwise different. |
| Verification.NewSerialStep | rpass.py:207-212 | Recording a serial number not yet in `serialnumbers` keeps the serial numbers seen pairwise different. |
| Verification.HostLinesHas | rpass.py:197 | Every host seen is a key of `hosts`. While names are distinct, it maps to its own line. |
| Verification.HostLinesFrom | rpass.py:197 | Every key of `hosts` is the name of a host seen. |
| Verification.SerialLinesHas | rpass.py:212 | Every serial number seen is a key of `serialnumbers`. While serial numbers are distinct, it maps to its host's line. |
| Verification.SerialLinesFrom | rpass.py:212 | Every key of `serialnumbers` was reported by a host seen. |
| Verification.VerificationCode | rpass.py:192-220 | The integer returned is -1 or the host count of a success. Every success on a non-empty file returns its count. |
| Verification.ValidatedFileHasNoRepeatedHost | rpass.py:192-195 | On a file that passed validation, the login pass never stops on a repeated name and never finds the file empty. |
| Verification.DistinctDevices | rpass.py:207-212 | After a successful login pass, `serialnumbers` holds one serial number per host: every host is a different device. |
| Verification.SerialLinesSize | rpass.py:212 | With pairwise different serial numbers, the dictionary has one key per host seen. |
| ErrorCatalog.ErrorText | rpass.py:224-262 | Codes 1 to 17 give the seventeen fixed texts, in order. Every other integer n gives "Unknown error code (rc=n)". |
| ErrorCatalog.KnownTextsDistinct | rpass.py:225-258 | The seventeen texts are pairwise different. |
| ErrorCatalog.KnownTextsAreNotFallbacks | rpass.py:225-260 | No fixed text starts like the fallback text. |
| ErrorCatalog.ErrorTextInjective | rpass.py:224-262 | Different codes give different texts. |
| Text.IntToDecimalInjective | rpass.py:260 | Different integers have different decimal renderings. |
| Rotation.SetPassResult | rpass.py:273-285 | The result is 0 or 1. It is 0 exactly when the change returned code 0; a transport failure or any other code gives 1. |
| Rotation.FailureDetailNamesCode | rpass.py:280-283 | The explanation printed for a refused change identifies its return code. |
| Rotation.SetNewPasswords | rpass.py:298-318 | The verdict and the contacted hosts are `RotationOutcome` of the file's entries under the change oracle. |
| Rotation.RotateFileLine | rpass.py:298-307 | One turn of the outer loop. A skipped line changes nothing. Any other line is stripped and its hosts are changed. Either the pass reaches the end of the line in step with `RotationOutcome`, or it stops with `RotationOutcome`'s result. |
| Rotation.RotateLine | rpass.py:307-314 | The inner loop over one line's hosts. Each host is contacted in order. The pass stops right after the first host whose `setpass` result is not 0, with False and `RotationOutcome`'s contacted hosts. |
| Rotation.RotationMeetsPromise | rpass.py:298-318 | `RotationOutcome` meets `RotationMeets`. It is True exactly when every host was changed, and then every host was contacted in file order. Otherwise there is a first failing host: every host before it was changed, it was the last host contacted, and no later host was contacted. |
| Rotation.RotateFromMeets | rpass.py:298-318 | The pass resumed after a prefix of changed hosts meets `RotationMeets`. |
| Driver.Rpass | rpass.py:333-376 | The run and exit status are those of `MainSpec`, in the source's order: admin refusal, validation, current password, login pass, confirmation, new password, same-password check, rotation. |
| Driver.ExitCode | rpass.py:333-376 | The status is 0 or 1. It is 0 exactly when the operator declined or every password was changed. |
| Driver.HostCountMessage | rpass.py:342-345 | The message is singular ("There is ") exactly when the count is 1. |
| Driver.AdminRefusedFirst | rpass.py:333-335 | The admin user, in any letter case, is refused with status 1. No file is read and no host is queried or changed. |
| Driver.PasswordRefusalsChangeNothing | rpass.py:349-373 | An empty current password stops the run with status 1 before any host is queried. An empty new password, or one equal to the current password, stops it with status 1 before any password change. |
| Driver.DeclineChangesNothing | rpass.py:360-364 | An answer other than "y" or "yes" (in any case) changes no password. If the run reaches the question, it stops with status 0. |
| Driver.RotationOnlyAfterAllGates | rpass.py:333-376 | A password is changed on some host only if all of the following passed: the user is not admin; the file validated; the current password is non-empty and worked on every host, each a different device; the operator said yes; and the new password is non-empty and different. Every host of the file was then queried, in file order. |
| Driver.SuccessMeansEveryHostChanged | rpass.py:362-376 | A run that exits with 0 either stopped at the operator's refusal, or contacted every host of the file in file order and changed the password on each. |
| Driver.AfterLoginRotated | rpass.py:366-376 | Once the current password is known, a run that ends in a successful rotation contacted every host of the file and changed the password on each. |
| Driver.RotationRunRotated | rpass.py:375-376 | A successful rotation contacted every host of the file, in file order, and changed the password on each. |

## Left out

- The PDU's RPC interface is not modelled: HTTPS, certificate handling, the 5-second timeouts, `getNameplate` and `setAccountPassword` (rpass.py:143-157, 267-274). `checkhost` becomes the oracle `serialOf`, and the password change becomes `outcomeOf`. Both are fixed functions of the host, so repeated or concurrent calls cannot differ.
- The `getInfo()` call at rpass.py:271 is not modelled. An exception there escapes `setpass` and ends the program.
- Opening the host file and the `IOError` paths are not modelled. This includes the open-failure path of `setnewpasswords` (rpass.py:292-296), which evaluates a bare `False` and then reads an undefined file. The three passes read the same `seq<string>`; the file cannot change between them.
- Terminal I/O is not modelled:
  - `getpass` is the stream `typed` and `input` is the value `answer`; end of input is not modelled.
  - Every `print` to stdout or stderr is left out, including the message built by `HostCountMessage`. The details the messages carry (host, line, earlier line, serial number) are the payloads of the verdict datatypes.
- `argparse`, the `--hostfile` default, `progname`, `sys.exit` and the `KeyboardInterrupt` handler are not modelled (rpass.py:323-331, 378-389).
- Python's `str.lower`, `isspace`, `split` and `strip` are modelled on ASCII only. Non-ASCII whitespace and non-ASCII case mappings are not.
- `str(html)` of the exception object is not modelled: `Detag` receives the message text.
- Each pass's inner loop and loop body are separate methods, instead of one nested loop. The order of the steps, the branches and the early exits are those of the source.
