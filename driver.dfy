/** The decision logic of `main`: refuse the admin user, validate the host file,
    read the current password, verify it on every host, ask for confirmation,
    read the new password, and rotate. The devices are two oracles taking the
    credentials: `query(host, username, password)` is the serial number
    `checkhost` obtains ("" on failure), `change(host, username, password,
    newpassword)` is what `setAccountPassword` does. The terminal is the stream
    `typed` of hidden entries and `answer` is the reply to the confirmation. */
module Driver {
  import opened Text
  import opened HostFile
  import opened Prompts
  import opened Verification
  import opened Rotation

  const AdminUsername: string := "admin"

  /** The user may not be the administrator, whatever the case of the letters. */
  predicate IsAdmin(username: string) {
    Lower(username) == Lower(AdminUsername)
  }

  /** The confirmation is "y" or "yes", in any case. */
  predicate IsYes(answer: string) {
    Lower(answer) == "y" || Lower(answer) == "yes"
  }

  /** The announcement of the number of hosts. */
  function HostCountMessage(n: nat): (msg: string)
    ensures |msg| >= 9
    ensures msg[..9] == "There is " <==> n == 1
  {
    if n == 1 then "There is 1 host"
    else
      var msg := "There are " + IntToDecimal(n) + " hosts";
      assert msg[..9][6] != "There is "[6];
      msg
  }

  function PasswordPrompt(username: string): string {
    "Enter password for user " + username
  }

  function NewPasswordPrompt(username: string): string {
    "Enter new password for user " + username
  }

  const AgainPrompt: string := "Enter password again for verification"

  /** Where `main` stopped. */
  datatype Stop =
    | AdminRefused
    | BadHostFile
    | NoPassword
    | FleetRejected
    | Declined
    | NoNewPassword
    | SamePassword
    | RotationFailed
    | Rotated

  /** The exit status of the script. */
  function ExitCode(stop: Stop): (code: int)
    ensures code == 0 || code == 1
    ensures code == 0 <==> stop == Declined || stop == Rotated
  {
    if stop == Declined || stop == Rotated then 0 else 1
  }

  /** A run: where it stopped, the hosts queried by the verification pass, and
      the hosts contacted by the rotation pass. */
  datatype Run = Run(stop: Stop, queried: seq<string>, contacted: seq<string>)

  /** The device query with the operator's credentials fixed. */
  function Device(query: (string, string, string) -> string, username: string, password: string): string -> string {
    host => query(host, username, password)
  }

  /** The password change with both passwords fixed. */
  function Changer(change: (string, string, string, string) -> ChangeOutcome, username: string,
                   password: string, newpassword: string): string -> ChangeOutcome {
    host => change(host, username, password, newpassword)
  }

  /** What `main` does. */
  function MainSpec(username: string, lines: seq<string>, typed: nat -> string, answer: string,
                    query: (string, string, string) -> string,
                    change: (string, string, string, string) -> ChangeOutcome): Run
  {
    if IsAdmin(username) then Run(AdminRefused, [], [])
    else if !RosterOk(lines) then Run(BadHostFile, [], [])
    else
      var current := GetPasswordSpec(typed, PasswordPrompt(username), AgainPrompt, 0);
      if current.password == "" then Run(NoPassword, [], [])
      else AfterLogin(username, lines, typed, answer, current, query, change)
  }

  /** `main` once the current password `current` was entered: the verification
      pass, the confirmation, the new password and the rotation pass. */
  function AfterLogin(username: string, lines: seq<string>, typed: nat -> string, answer: string,
                      current: Entry, query: (string, string, string) -> string,
                      change: (string, string, string, string) -> ChangeOutcome): Run
  {
    var check := Outcome(Entries(lines), Device(query, username, current.password));
    if !check.0.AllHostsOk? then Run(FleetRejected, check.1, [])
    else if !IsYes(answer) then Run(Declined, check.1, [])
    else
      var replacement := GetPasswordSpec(typed, NewPasswordPrompt(username), AgainPrompt, current.next);
      if replacement.password == "" then Run(NoNewPassword, check.1, [])
      else if replacement.password == current.password then Run(SamePassword, check.1, [])
      else RotationRun(lines, Changer(change, username, current.password, replacement.password), check.1)
  }

  /** The end of `main`: the rotation pass with the password change `changer`,
      after the verification pass queried `queried`. */
  function RotationRun(lines: seq<string>, changer: string -> ChangeOutcome, queried: seq<string>): Run {
    var rotation := RotationOutcome(Entries(lines), changer);
    Run(if rotation.0 then Rotated else RotationFailed, queried, rotation.1)
  }

  /** `main`, after the arguments are parsed. */
  method Rpass(username: string, lines: seq<string>, typed: nat -> string, answer: string,
               query: (string, string, string) -> string,
               change: (string, string, string, string) -> ChangeOutcome)
    returns (code: int, run: Run)
    ensures run == MainSpec(username, lines, typed, answer, query, change)
    ensures code == ExitCode(run.stop)
  {
    if Lower(username) == Lower(AdminUsername) {
      run := Run(AdminRefused, [], []);
      return 1, run;
    }
    var validation := BasicHostFileValidation(lines);
    if ValidationCode(validation) == -1 {
      run := Run(BadHostFile, [], []);
      return 1, run;
    }
    var password, next, _ := GetPassword(typed, PasswordPrompt(username), AgainPrompt, 0);
    if password == "" {
      run := Run(NoPassword, [], []);
      return 1, run;
    }
    var verdict, queried := CheckUsernamePassword(lines, Device(query, username, password));
    if VerificationCode(verdict) == -1 {
      OutcomeMeets(Entries(lines), Device(query, username, password));
      run := Run(FleetRejected, queried, []);
      return 1, run;
    }
    if Lower(answer) != "y" && Lower(answer) != "yes" {
      run := Run(Declined, queried, []);
      return 0, run;
    }
    var newpassword, _, _ := GetPassword(typed, NewPasswordPrompt(username), AgainPrompt, next);
    if newpassword == "" {
      run := Run(NoNewPassword, queried, []);
      return 1, run;
    }
    if newpassword == password {
      run := Run(SamePassword, queried, []);
      return 1, run;
    }
    var ok, contacted := SetNewPasswords(lines, Changer(change, username, password, newpassword));
    run := Run(if ok then Rotated else RotationFailed, queried, contacted);
    code := if ok then 0 else 1;
  }

  // ---------------------------------------------------------------- the gates

  /** The admin user is refused before the host file is read or any host is
      contacted. */
  lemma AdminRefusedFirst(username: string, lines: seq<string>, typed: nat -> string, answer: string,
                          query: (string, string, string) -> string,
                          change: (string, string, string, string) -> ChangeOutcome)
    requires IsAdmin(username)
    ensures MainSpec(username, lines, typed, answer, query, change) == Run(AdminRefused, [], [])
    ensures ExitCode(MainSpec(username, lines, typed, answer, query, change).stop) == 1
  {
  }

  /** Any host is contacted for a change only after the file validated, the
      current password was entered and worked on every host, the operator
      confirmed, and a new, different password was entered; by then every host
      of the file was queried, in file order. */
  lemma RotationOnlyAfterAllGates(username: string, lines: seq<string>, typed: nat -> string, answer: string,
                                  query: (string, string, string) -> string,
                                  change: (string, string, string, string) -> ChangeOutcome)
    requires MainSpec(username, lines, typed, answer, query, change).contacted != []
    ensures !IsAdmin(username) && RosterOk(lines) && IsYes(answer)
    ensures var current := GetPasswordSpec(typed, PasswordPrompt(username), AgainPrompt, 0);
      var replacement := GetPasswordSpec(typed, NewPasswordPrompt(username), AgainPrompt, current.next);
      current.password != "" && replacement.password != "" && replacement.password != current.password &&
      FleetOk(lines, Device(query, username, current.password))
    ensures MainSpec(username, lines, typed, answer, query, change).queried == Hosts(lines)
  {
    var current := GetPasswordSpec(typed, PasswordPrompt(username), AgainPrompt, 0);
    OutcomeMeets(Entries(lines), Device(query, username, current.password));
  }

  /** A negative answer ends the run with status 0 and no change anywhere. */
  lemma DeclineChangesNothing(username: string, lines: seq<string>, typed: nat -> string, answer: string,
                              query: (string, string, string) -> string,
                              change: (string, string, string, string) -> ChangeOutcome)
    requires !IsYes(answer)
    ensures MainSpec(username, lines, typed, answer, query, change).contacted == []
    ensures MainSpec(username, lines, typed, answer, query, change).stop in {AdminRefused, BadHostFile, NoPassword, FleetRejected, Declined}
  {
  }

  /** An empty current password, an empty new password and a new password equal
      to the current one each end the run with status 1 before any password change. */
  lemma PasswordRefusalsChangeNothing(username: string, lines: seq<string>, typed: nat -> string, answer: string,
                                      query: (string, string, string) -> string,
                                      change: (string, string, string, string) -> ChangeOutcome)
    requires !IsAdmin(username) && RosterOk(lines)
    ensures var current := GetPasswordSpec(typed, PasswordPrompt(username), AgainPrompt, 0);
      current.password == "" ==> MainSpec(username, lines, typed, answer, query, change) == Run(NoPassword, [], [])
    ensures var current := GetPasswordSpec(typed, PasswordPrompt(username), AgainPrompt, 0);
      var replacement := GetPasswordSpec(typed, NewPasswordPrompt(username), AgainPrompt, current.next);
      var run := MainSpec(username, lines, typed, answer, query, change);
      current.password != "" && run.stop != FleetRejected && run.stop != Declined &&
      (replacement.password == "" || replacement.password == current.password) ==>
        run.contacted == [] && ExitCode(run.stop) == 1 &&
        run.stop == (if replacement.password == "" then NoNewPassword else SamePassword)
  {
  }

  /** A run that finished with status 0 either stopped at the operator's refusal
      or changed the password on every host of the file, contacting them in file
      order. */
  lemma SuccessMeansEveryHostChanged(username: string, lines: seq<string>, typed: nat -> string, answer: string,
                                     query: (string, string, string) -> string,
                                     change: (string, string, string, string) -> ChangeOutcome)
    requires ExitCode(MainSpec(username, lines, typed, answer, query, change).stop) == 0
    ensures var run := MainSpec(username, lines, typed, answer, query, change);
      run.stop == Declined || (run.stop == Rotated && run.contacted == Hosts(lines))
    ensures var current := GetPasswordSpec(typed, PasswordPrompt(username), AgainPrompt, 0);
      var replacement := GetPasswordSpec(typed, NewPasswordPrompt(username), AgainPrompt, current.next);
      MainSpec(username, lines, typed, answer, query, change).stop == Rotated ==>
        AllChanged(Entries(lines), |Entries(lines)|, Changer(change, username, current.password, replacement.password))
  {
    if MainSpec(username, lines, typed, answer, query, change).stop == Rotated {
      var current := GetPasswordSpec(typed, PasswordPrompt(username), AgainPrompt, 0);
      AfterLoginRotated(username, lines, typed, answer, current, query, change);
    }
  }

  /** Past the current password, a successful rotation contacted every host and
      changed the password on each. */
  lemma AfterLoginRotated(username: string, lines: seq<string>, typed: nat -> string, answer: string,
                          current: Entry, query: (string, string, string) -> string,
                          change: (string, string, string, string) -> ChangeOutcome)
    requires AfterLogin(username, lines, typed, answer, current, query, change).stop == Rotated
    ensures AfterLogin(username, lines, typed, answer, current, query, change).contacted == Hosts(lines)
    ensures var replacement := GetPasswordSpec(typed, NewPasswordPrompt(username), AgainPrompt, current.next);
      AllChanged(Entries(lines), |Entries(lines)|, Changer(change, username, current.password, replacement.password))
  {
    var replacement := GetPasswordSpec(typed, NewPasswordPrompt(username), AgainPrompt, current.next);
    var changer := Changer(change, username, current.password, replacement.password);
    RotationRunRotated(lines, changer, Outcome(Entries(lines), Device(query, username, current.password)).1);
  }

  /** A rotation that succeeded changed the password on every host of the file and
      contacted them in file order. */
  lemma RotationRunRotated(lines: seq<string>, changer: string -> ChangeOutcome, queried: seq<string>)
    requires RotationRun(lines, changer, queried).stop == Rotated
    ensures RotationRun(lines, changer, queried).contacted == Hosts(lines)
    ensures AllChanged(Entries(lines), |Entries(lines)|, changer)
  {
    RotationMeetsPromise(Entries(lines), changer);
  }
}
