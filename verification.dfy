/** The verification pass (`checkusernamepassword`): every host of the file is
    logged into in file order, abort on the first failure. The device query
    (`checkhost`) is the oracle `serialOf`: the serial number the host reports for
    the operator's credentials, or "" when the login or the query fails. Facts
    about the scan are stated on the first `n` entries of the file. */
module Verification {
  import opened Text
  import opened HostFile

  datatype Verification =
    | AllHostsOk(count: nat)
    | RepeatedHost(host: string, line: nat, previous: nat)
    | LoginFailed(host: string, line: nat)
    | SharedSerial(serial: string, line: nat, previous: nat)
    | EmptyFleet

  /** The integer `checkusernamepassword` returns: the host count, or -1. */
  function VerificationCode(v: Verification): (code: int)
    ensures code == -1 || (v.AllHostsOk? && code == v.count)
    ensures v.AllHostsOk? && v.count > 0 ==> code == v.count
  {
    if v.AllHostsOk? then v.count else -1
  }

  predicate SameHost(es: seq<HostEntry>, i: nat, j: nat)
    requires i < |es| && j < |es|
  {
    es[i].host == es[j].host
  }

  predicate SameDevice(es: seq<HostEntry>, i: nat, j: nat, serialOf: string -> string)
    requires i < |es| && j < |es|
  {
    serialOf(es[i].host) == serialOf(es[j].host)
  }

  /** No two of the first `n` entries name the same host (case counting). */
  predicate HostsDistinct(es: seq<HostEntry>, n: nat)
    requires n <= |es|
  {
    forall i, j :: 0 <= i < j < n ==> !SameHost(es, i, j)
  }

  /** Every one of the first `n` hosts answered with a serial number. */
  predicate LoggedIn(es: seq<HostEntry>, n: nat, serialOf: string -> string)
    requires n <= |es|
  {
    forall i :: 0 <= i < n ==> serialOf(es[i].host) != ""
  }

  /** No two of the first `n` hosts are the same physical device. */
  predicate SerialsDistinct(es: seq<HostEntry>, n: nat, serialOf: string -> string)
    requires n <= |es|
  {
    forall i, j :: 0 <= i < j < n ==> !SameDevice(es, i, j, serialOf)
  }

  /** None of the three stopping conditions holds among the first `n` entries. */
  predicate Clean(es: seq<HostEntry>, n: nat, serialOf: string -> string)
    requires n <= |es|
  {
    HostsDistinct(es, n) && LoggedIn(es, n, serialOf) && SerialsDistinct(es, n, serialOf)
  }

  /** The whole file verifies: at least one host and no stopping condition. */
  predicate FleetOk(lines: seq<string>, serialOf: string -> string) {
    |Entries(lines)| > 0 && Clean(Entries(lines), |Entries(lines)|, serialOf)
  }

  // ---------------------------------------------------------------- the two dictionaries

  /** The dictionary `hosts` after the first `n` entries: each host to its line. */
  function HostLines(es: seq<HostEntry>, n: nat): map<string, nat>
    requires n <= |es|
    decreases n
  {
    if n == 0 then map[] else HostLines(es, n - 1)[es[n - 1].host := es[n - 1].line]
  }

  /** The dictionary `serialnumbers` after the first `n` entries: each serial
      number to the line of the host that reported it. */
  function SerialLines(es: seq<HostEntry>, n: nat, serialOf: string -> string): map<string, nat>
    requires n <= |es|
    decreases n
  {
    if n == 0 then map[] else SerialLines(es, n - 1, serialOf)[serialOf(es[n - 1].host) := es[n - 1].line]
  }

  lemma {:induction false} HostLinesHas(es: seq<HostEntry>, n: nat, i: nat)
    requires i < n <= |es|
    ensures es[i].host in HostLines(es, n)
    ensures HostsDistinct(es, n) ==> HostLines(es, n)[es[i].host] == es[i].line
    decreases n
  {
    if i < n - 1 {
      HostLinesHas(es, n - 1, i);
      if HostsDistinct(es, n) {
        assert !SameHost(es, i, n - 1);
      }
    }
  }

  lemma {:induction false} HostLinesFrom(es: seq<HostEntry>, n: nat, key: string)
    requires n <= |es| && key in HostLines(es, n)
    ensures exists i :: 0 <= i < n && es[i].host == key
    decreases n
  {
    if es[n - 1].host != key {
      HostLinesFrom(es, n - 1, key);
    }
  }

  lemma {:induction false} SerialLinesHas(es: seq<HostEntry>, n: nat, i: nat, serialOf: string -> string)
    requires i < n <= |es|
    ensures serialOf(es[i].host) in SerialLines(es, n, serialOf)
    ensures SerialsDistinct(es, n, serialOf) ==> SerialLines(es, n, serialOf)[serialOf(es[i].host)] == es[i].line
    decreases n
  {
    if i < n - 1 {
      SerialLinesHas(es, n - 1, i, serialOf);
      if SerialsDistinct(es, n, serialOf) {
        assert !SameDevice(es, i, n - 1, serialOf);
      }
    }
  }

  lemma {:induction false} SerialLinesFrom(es: seq<HostEntry>, n: nat, key: string, serialOf: string -> string)
    requires n <= |es| && key in SerialLines(es, n, serialOf)
    ensures exists i :: 0 <= i < n && serialOf(es[i].host) == key
    decreases n
  {
    if serialOf(es[n - 1].host) != key {
      SerialLinesFrom(es, n - 1, key, serialOf);
    }
  }

  // ---------------------------------------------------------------- the pass as a function

  /** The outcome of the pass resumed at entry `k` with the dictionaries built from
      the entries before it: the result and the hosts queried so far. Entry `k` is
      checked in the source's order: its name already recorded, then the device
      query failing, then its serial number already recorded. */
  function Resume(es: seq<HostEntry>, serialOf: string -> string, k: nat): (Verification, seq<string>)
    requires k <= |es|
    decreases |es| - k
  {
    if k == |es| then
      (if k == 0 then EmptyFleet else AllHostsOk(k), NamesUpTo(es, k))
    else
      var e := es[k];
      var serial := serialOf(e.host);
      if e.host in HostLines(es, k) then
        (RepeatedHost(e.host, e.line, HostLines(es, k)[e.host]), NamesUpTo(es, k))
      else if serial == "" then
        (LoginFailed(e.host, e.line), NamesUpTo(es, k + 1))
      else if serial in SerialLines(es, k, serialOf) then
        (SharedSerial(serial, e.line, SerialLines(es, k, serialOf)[serial]), NamesUpTo(es, k + 1))
      else
        Resume(es, serialOf, k + 1)
  }

  /** The outcome of `checkusernamepassword` on the entries `es`. */
  function Outcome(es: seq<HostEntry>, serialOf: string -> string): (Verification, seq<string>) {
    Resume(es, serialOf, 0)
  }

  /** What `checkusernamepassword` promises about the file's entries `es` and the
      hosts it queried, in order: success exactly when there is a host and no
      stopping condition, with every host queried; otherwise it reports the first
      entry at which a stopping condition holds, checked in the order repeated host,
      failed login, repeated serial, and has queried no host after that entry (and
      not that entry itself when its name repeats). */
  ghost predicate VerificationMeets(es: seq<HostEntry>, serialOf: string -> string,
                                    r: Verification, queried: seq<string>)
  {
    && (r.AllHostsOk? <==> |es| > 0 && Clean(es, |es|, serialOf))
    && (r.AllHostsOk? ==> r.count == |es| && queried == HostNames(es))
    && (r.EmptyFleet? <==> |es| == 0)
    && (r.EmptyFleet? ==> queried == [])
    && (r.RepeatedHost? ==>
          exists i, j :: 0 <= i < j < |es| && Clean(es, j, serialOf) &&
            SameHost(es, i, j) &&
            queried == NamesUpTo(es, j) &&
            r == RepeatedHost(es[j].host, es[j].line, es[i].line))
    && (r.LoginFailed? ==>
          exists j :: 0 <= j < |es| && Clean(es, j, serialOf) &&
            HostsDistinct(es, j + 1) && serialOf(es[j].host) == "" &&
            queried == NamesUpTo(es, j + 1) &&
            r == LoginFailed(es[j].host, es[j].line))
    && (r.SharedSerial? ==>
          exists i, j :: 0 <= i < j < |es| && Clean(es, j, serialOf) &&
            HostsDistinct(es, j + 1) && LoggedIn(es, j + 1, serialOf) &&
            SameDevice(es, i, j, serialOf) &&
            queried == NamesUpTo(es, j + 1) &&
            r == SharedSerial(serialOf(es[j].host), es[j].line, es[i].line))
  }

  // ---------------------------------------------------------------- the pass meets it

  lemma RepeatReported(es: seq<HostEntry>, serialOf: string -> string, k: nat)
    requires k < |es| && Clean(es, k, serialOf) && es[k].host in HostLines(es, k)
    ensures VerificationMeets(es, serialOf, Resume(es, serialOf, k).0, Resume(es, serialOf, k).1)
  {
    HostLinesFrom(es, k, es[k].host);
    var i :| 0 <= i < k && es[i].host == es[k].host;
    HostLinesHas(es, k, i);
    assert SameHost(es, i, k);
    assert !HostsDistinct(es, |es|);
  }

  lemma NewHostStep(es: seq<HostEntry>, serialOf: string -> string, k: nat)
    requires k < |es| && HostsDistinct(es, k) && es[k].host !in HostLines(es, k)
    ensures HostsDistinct(es, k + 1)
  {
    forall i | 0 <= i < k ensures !SameHost(es, i, k) {
      HostLinesHas(es, k, i);
    }
  }

  lemma NewSerialStep(es: seq<HostEntry>, serialOf: string -> string, k: nat)
    requires k < |es| && SerialsDistinct(es, k, serialOf)
    requires serialOf(es[k].host) !in SerialLines(es, k, serialOf)
    ensures SerialsDistinct(es, k + 1, serialOf)
  {
    forall i | 0 <= i < k ensures !SameDevice(es, i, k, serialOf) {
      SerialLinesHas(es, k, i, serialOf);
    }
  }

  lemma LoginFailureReported(es: seq<HostEntry>, serialOf: string -> string, k: nat)
    requires k < |es| && Clean(es, k, serialOf) && HostsDistinct(es, k + 1) && serialOf(es[k].host) == ""
    ensures VerificationMeets(es, serialOf, LoginFailed(es[k].host, es[k].line), NamesUpTo(es, k + 1))
  {
  }

  lemma SerialRepeatReported(es: seq<HostEntry>, serialOf: string -> string, k: nat)
    requires k < |es| && Clean(es, k, serialOf) && HostsDistinct(es, k + 1)
    requires serialOf(es[k].host) != "" && serialOf(es[k].host) in SerialLines(es, k, serialOf)
    ensures var serial := serialOf(es[k].host);
      VerificationMeets(es, serialOf, SharedSerial(serial, es[k].line, SerialLines(es, k, serialOf)[serial]),
                        NamesUpTo(es, k + 1))
  {
    var serial := serialOf(es[k].host);
    SerialLinesFrom(es, k, serial, serialOf);
    var i :| 0 <= i < k && serialOf(es[i].host) == serial;
    SerialLinesHas(es, k, i, serialOf);
    assert SameDevice(es, i, k, serialOf);
    assert !SerialsDistinct(es, |es|, serialOf);
  }

  /** Resumed after a clean prefix, the pass meets its promise. */
  lemma {:induction false} ResumeMeets(es: seq<HostEntry>, serialOf: string -> string, k: nat)
    requires k <= |es| && Clean(es, k, serialOf)
    ensures VerificationMeets(es, serialOf, Resume(es, serialOf, k).0, Resume(es, serialOf, k).1)
    decreases |es| - k
  {
    if k < |es| {
      var host := es[k].host;
      if host in HostLines(es, k) {
        RepeatReported(es, serialOf, k);
      } else {
        NewHostStep(es, serialOf, k);
        if serialOf(host) == "" {
          LoginFailureReported(es, serialOf, k);
        } else if serialOf(host) in SerialLines(es, k, serialOf) {
          SerialRepeatReported(es, serialOf, k);
        } else {
          NewSerialStep(es, serialOf, k);
          ResumeMeets(es, serialOf, k + 1);
        }
      }
    }
  }

  /** `checkusernamepassword`'s outcome meets its promise. */
  lemma OutcomeMeets(es: seq<HostEntry>, serialOf: string -> string)
    ensures VerificationMeets(es, serialOf, Outcome(es, serialOf).0, Outcome(es, serialOf).1)
  {
    ResumeMeets(es, serialOf, 0);
  }

  // ---------------------------------------------------------------- the pass

  /** The pass is in step after the first `n` entries: the dictionaries and the
      queried hosts are those the entries before `n` produce, and resuming at `n`
      gives the pass's outcome. */
  ghost predicate InStep(es: seq<HostEntry>, serialOf: string -> string, n: nat, hosts: map<string, nat>,
                         serials: map<string, nat>, queried: seq<string>)
  {
    && n <= |es|
    && hosts == HostLines(es, n)
    && serials == SerialLines(es, n, serialOf)
    && queried == NamesUpTo(es, n)
    && Resume(es, serialOf, n) == Outcome(es, serialOf)
  }

  /** The body of the inner loop of `checkusernamepassword` for one host, the
      entry `k` of the file, on line `line`: stop on a repeated name; otherwise
      record the host, query its device, and stop on a failed query or a repeated
      serial number, or record the serial number. */
  method CheckHost(ghost es: seq<HostEntry>, serialOf: string -> string, ghost k: nat, host: string, line: nat,
                   hosts0: map<string, nat>, serials0: map<string, nat>, queried0: seq<string>)
    returns (hosts: map<string, nat>, serialnumbers: map<string, nat>, queried: seq<string>,
             stop: bool, r: Verification)
    requires k < |es| && es[k] == HostEntry(host, line)
    requires InStep(es, serialOf, k, hosts0, serials0, queried0)
    ensures !stop ==> InStep(es, serialOf, k + 1, hosts, serialnumbers, queried)
    ensures stop ==> (r, queried) == Outcome(es, serialOf)
  {
    hosts, serialnumbers, queried, stop, r := hosts0, serials0, queried0, true, EmptyFleet;
    if host in hosts {
      r := RepeatedHost(host, line, hosts[host]);
      return;
    }
    hosts := hosts[host := line];
    var serialnumber := serialOf(host);
    queried := queried + [host];
    if serialnumber == "" {
      r := LoginFailed(host, line);
    } else if serialnumber in serialnumbers {
      r := SharedSerial(serialnumber, line, serialnumbers[serialnumber]);
    } else {
      serialnumbers := serialnumbers[serialnumber := line];
      stop := false;
    }
  }

  /** The inner `for host in line.split()` loop of `checkusernamepassword` on the
      hosts `toks` of file line `line`, whose entries start at entry `count0`:
      either every host is checked and recorded, or the pass stops with its
      outcome. */
  method CheckLine(ghost es: seq<HostEntry>, serialOf: string -> string, toks: seq<string>, line: nat,
                   count0: nat, hosts0: map<string, nat>, serials0: map<string, nat>,
                   queried0: seq<string>)
    returns (hosts: map<string, nat>, serialnumbers: map<string, nat>, hostcount: nat,
             queried: seq<string>, stop: bool, r: Verification)
    requires LineAt(es, count0, toks, line)
    requires InStep(es, serialOf, count0, hosts0, serials0, queried0)
    ensures !stop ==> hostcount == count0 + |toks|
    ensures !stop ==> InStep(es, serialOf, hostcount, hosts, serialnumbers, queried)
    ensures stop ==> (r, queried) == Outcome(es, serialOf)
  {
    hosts, serialnumbers, hostcount, queried, stop, r := hosts0, serials0, count0, queried0, false, EmptyFleet;
    var t := 0;
    while t < |toks|
      invariant 0 <= t <= |toks| && hostcount == count0 + t
      invariant InStep(es, serialOf, hostcount, hosts, serialnumbers, queried)
    {
      hosts, serialnumbers, queried, stop, r :=
        CheckHost(es, serialOf, hostcount, toks[t], line, hosts, serialnumbers, queried);
      if stop {
        return;
      }
      hostcount := hostcount + 1;
      t := t + 1;
    }
  }

  /** `checkusernamepassword` on an opened file. Returns the outcome and the hosts
      whose device was queried, in the order they were queried. */
  method CheckUsernamePassword(lines: seq<string>, serialOf: string -> string)
    returns (r: Verification, queried: seq<string>)
    ensures (r, queried) == Outcome(Entries(lines), serialOf)
  {
    var hosts: map<string, nat> := map[];
    var serialnumbers: map<string, nat> := map[];
    var hostcount := 0;
    var stop := false;
    queried := [];
    var linenum := 0;
    while linenum < |lines|
      invariant 0 <= linenum <= |lines| && !stop
      invariant hostcount == Count(lines, linenum)
      invariant InStep(Entries(lines), serialOf, hostcount, hosts, serialnumbers, queried)
    {
      hosts, serialnumbers, hostcount, queried, stop, r :=
        CheckFileLine(lines, serialOf, linenum, hosts, serialnumbers, hostcount, queried);
      if stop {
        break;
      }
      linenum := linenum + 1;
    }
    if !stop {
      CountSpec(lines, |lines|);
      r := if hostcount == 0 then EmptyFleet else AllHostsOk(hostcount);
    }
  }

  /** One turn of the outer loop of `checkusernamepassword`: line `linenum` is
      skipped, or its hosts are checked. */
  method CheckFileLine(lines: seq<string>, serialOf: string -> string, linenum: nat, hosts0: map<string, nat>,
                       serials0: map<string, nat>, count0: nat, queried0: seq<string>)
    returns (hosts: map<string, nat>, serialnumbers: map<string, nat>, hostcount: nat,
             queried: seq<string>, stop: bool, r: Verification)
    requires linenum < |lines| && count0 == Count(lines, linenum)
    requires InStep(Entries(lines), serialOf, count0, hosts0, serials0, queried0)
    ensures !stop ==> hostcount == Count(lines, linenum + 1)
    ensures !stop ==> InStep(Entries(lines), serialOf, hostcount, hosts, serialnumbers, queried)
    ensures stop ==> (r, queried) == Outcome(Entries(lines), serialOf)
  {
    hosts, serialnumbers, hostcount, queried, stop, r := hosts0, serials0, count0, queried0, false, EmptyFleet;
    if !IsSkipped(lines[linenum]) {
      var toks := Split(Strip(lines[linenum]));
      SplitStrip(lines[linenum]);
      LineTokens(lines, linenum, toks);
      hosts, serialnumbers, hostcount, queried, stop, r :=
        CheckLine(Entries(lines), serialOf, toks, linenum + 1, count0, hosts0, serials0, queried0);
    }
  }

  /** Once the file has passed validation, the verification pass can only stop on a
      failed login or a repeated serial number, never on a repeated host name. */
  lemma ValidatedFileHasNoRepeatedHost(lines: seq<string>, serialOf: string -> string,
                                       r: Verification, queried: seq<string>)
    requires RosterOk(lines)
    requires VerificationMeets(Entries(lines), serialOf, r, queried)
    ensures !r.RepeatedHost? && !r.EmptyFleet?
  {
    var es := Entries(lines);
    assert HostsDistinct(es, |es|) by {
      forall i, j | 0 <= i < j < |es| ensures !SameHost(es, i, j) {
        assert !SameKey(es, i, j);
      }
    }
  }

  /** On success the serial numbers seen number one per host: each host is a
      distinct physical device. */
  lemma DistinctDevices(lines: seq<string>, serialOf: string -> string)
    requires FleetOk(lines, serialOf)
    ensures |SerialLines(Entries(lines), |Entries(lines)|, serialOf)| == |Entries(lines)|
  {
    var es := Entries(lines);
    SerialLinesSize(es, |es|, serialOf);
  }

  lemma {:induction false} SerialLinesSize(es: seq<HostEntry>, n: nat, serialOf: string -> string)
    requires n <= |es| && SerialsDistinct(es, n, serialOf)
    ensures |SerialLines(es, n, serialOf)| == n
    decreases n
  {
    if n > 0 {
      var serial := serialOf(es[n - 1].host);
      SerialLinesSize(es, n - 1, serialOf);
      if serial in SerialLines(es, n - 1, serialOf) {
        SerialLinesFrom(es, n - 1, serial, serialOf);
        var i :| 0 <= i < n - 1 && serialOf(es[i].host) == serial;
        assert SameDevice(es, i, n - 1, serialOf);
        assert false;
      }
    }
  }
}
