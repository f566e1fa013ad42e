/** The rotation pass: `setpass`'s mapping of the device's answer to 0 or 1, and
    `setnewpasswords`, which changes the password host by host in file order and
    stops at the first host where that fails. The device call is the oracle
    `outcomeOf`: what `setAccountPassword` did on a host. */
module Rotation {
  import opened Text
  import opened HostFile
  import opened Markup
  import opened ErrorCatalog

  /** The answer of `setAccountPassword` on one host: the call raised an HTTP
      exception with the given message, or it returned the code `rc`. */
  datatype ChangeOutcome =
    | TransportFailure(message: string)
    | ReturnCode(rc: int)

  /** The value `setpass` returns: 0 for a changed password, 1 otherwise. */
  function SetPassResult(o: ChangeOutcome): (result: int)
    ensures result == 0 || result == 1
    ensures result == 0 <==> o == ReturnCode(0)
  {
    match o
    case TransportFailure(_) => 1
    case ReturnCode(rc) => if rc != 0 then 1 else 0
  }

  /** The explanation `setpass` prints under a failure: the message of the
      exception with its markup removed, or the text of the return code. */
  function FailureDetail(o: ChangeOutcome): string
    requires SetPassResult(o) != 0
  {
    match o
    case TransportFailure(message) => DetagText(message)
    case ReturnCode(rc) => ErrorText(rc)
  }

  /** A refused change is explained by a text that names its return code. */
  lemma FailureDetailNamesCode(a: int, b: int)
    requires a != 0 && b != 0
    requires FailureDetail(ReturnCode(a)) == FailureDetail(ReturnCode(b))
    ensures a == b
  {
    ErrorTextInjective(a, b);
  }

  /** The password of entry `i`'s host was changed. */
  predicate Changed(es: seq<HostEntry>, i: nat, outcomeOf: string -> ChangeOutcome)
    requires i < |es|
  {
    SetPassResult(outcomeOf(es[i].host)) == 0
  }

  predicate AllChanged(es: seq<HostEntry>, n: nat, outcomeOf: string -> ChangeOutcome)
    requires n <= |es|
  {
    forall i :: 0 <= i < n ==> Changed(es, i, outcomeOf)
  }

  // ---------------------------------------------------------------- the pass as a function

  /** The outcome of the pass resumed at entry `k`: whether every host succeeded,
      and the hosts contacted, in order. */
  function RotateFrom(es: seq<HostEntry>, outcomeOf: string -> ChangeOutcome, k: nat): (bool, seq<string>)
    requires k <= |es|
    decreases |es| - k
  {
    if k == |es| then (true, NamesUpTo(es, k))
    else if SetPassResult(outcomeOf(es[k].host)) != 0 then (false, NamesUpTo(es, k + 1))
    else RotateFrom(es, outcomeOf, k + 1)
  }

  /** The outcome of `setnewpasswords` on the entries `es`. */
  function RotationOutcome(es: seq<HostEntry>, outcomeOf: string -> ChangeOutcome): (bool, seq<string>) {
    RotateFrom(es, outcomeOf, 0)
  }

  /** What `setnewpasswords` promises: True exactly when every host's password
      was changed, all hosts then being contacted in file order; otherwise the
      hosts before the first failing one were changed (and stay changed), the
      failing one was the last contacted, and no later host was contacted. */
  ghost predicate RotationMeets(es: seq<HostEntry>, outcomeOf: string -> ChangeOutcome,
                                ok: bool, contacted: seq<string>)
  {
    && (ok <==> AllChanged(es, |es|, outcomeOf))
    && (ok ==> contacted == HostNames(es))
    && (!ok ==>
          exists k :: 0 <= k < |es| && AllChanged(es, k, outcomeOf) && !Changed(es, k, outcomeOf) &&
            contacted == NamesUpTo(es, k + 1))
  }

  lemma {:induction false} RotateFromMeets(es: seq<HostEntry>, outcomeOf: string -> ChangeOutcome, k: nat)
    requires k <= |es| && AllChanged(es, k, outcomeOf)
    ensures RotationMeets(es, outcomeOf, RotateFrom(es, outcomeOf, k).0, RotateFrom(es, outcomeOf, k).1)
    decreases |es| - k
  {
    if k < |es| {
      if SetPassResult(outcomeOf(es[k].host)) != 0 {
        assert !Changed(es, k, outcomeOf);
      } else {
        assert Changed(es, k, outcomeOf);
        RotateFromMeets(es, outcomeOf, k + 1);
      }
    }
  }

  /** `setnewpasswords`'s outcome meets its promise. */
  lemma RotationMeetsPromise(es: seq<HostEntry>, outcomeOf: string -> ChangeOutcome)
    ensures RotationMeets(es, outcomeOf, RotationOutcome(es, outcomeOf).0, RotationOutcome(es, outcomeOf).1)
  {
    RotateFromMeets(es, outcomeOf, 0);
  }

  // ---------------------------------------------------------------- the pass

  /** The pass is in step after the first `n` entries: those hosts were contacted,
      in order, and resuming at `n` gives the pass's outcome. */
  ghost predicate InStep(es: seq<HostEntry>, outcomeOf: string -> ChangeOutcome, n: nat, contacted: seq<string>) {
    n <= |es| && contacted == NamesUpTo(es, n) && RotateFrom(es, outcomeOf, n) == RotationOutcome(es, outcomeOf)
  }

  /** The inner `for host in line.split()` loop of `setnewpasswords` on the hosts
      `toks` of file line `line`, whose entries start at entry `count0`. */
  method RotateLine(ghost es: seq<HostEntry>, outcomeOf: string -> ChangeOutcome, toks: seq<string>,
                    ghost line: nat, ghost count0: nat, contacted0: seq<string>)
    returns (contacted: seq<string>, failed: bool, ghost hostcount: nat)
    requires LineAt(es, count0, toks, line)
    requires InStep(es, outcomeOf, count0, contacted0)
    ensures !failed ==> hostcount == count0 + |toks|
    ensures !failed ==> InStep(es, outcomeOf, hostcount, contacted)
    ensures failed ==> (false, contacted) == RotationOutcome(es, outcomeOf)
  {
    contacted, failed, hostcount := contacted0, false, count0;
    var t := 0;
    while t < |toks|
      invariant 0 <= t <= |toks| && hostcount == count0 + t
      invariant InStep(es, outcomeOf, hostcount, contacted)
    {
      var host := toks[t];
      assert es[hostcount] == HostEntry(host, line);
      var rc := SetPassResult(outcomeOf(host));
      contacted := contacted + [host];
      if rc != 0 {
        failed := true;
        return;
      }
      hostcount := hostcount + 1;
      t := t + 1;
    }
  }

  /** One turn of the outer loop of `setnewpasswords`: line `linenum` is skipped,
      or its hosts are changed. */
  method RotateFileLine(lines: seq<string>, outcomeOf: string -> ChangeOutcome, linenum: nat,
                        ghost count0: nat, contacted0: seq<string>)
    returns (contacted: seq<string>, failed: bool, ghost hostcount: nat)
    requires linenum < |lines| && count0 == Count(lines, linenum)
    requires InStep(Entries(lines), outcomeOf, count0, contacted0)
    ensures !failed ==> hostcount == Count(lines, linenum + 1)
    ensures !failed ==> InStep(Entries(lines), outcomeOf, hostcount, contacted)
    ensures failed ==> (false, contacted) == RotationOutcome(Entries(lines), outcomeOf)
  {
    contacted, failed, hostcount := contacted0, false, count0;
    if !IsSkipped(lines[linenum]) {
      var toks := Split(Strip(lines[linenum]));
      SplitStrip(lines[linenum]);
      LineTokens(lines, linenum, toks);
      contacted, failed, hostcount := RotateLine(Entries(lines), outcomeOf, toks, linenum + 1, count0, contacted0);
    }
  }

  /** `setnewpasswords` on an opened file. Returns its verdict and the hosts
      contacted, in the order they were contacted. */
  method SetNewPasswords(lines: seq<string>, outcomeOf: string -> ChangeOutcome)
    returns (ok: bool, contacted: seq<string>)
    ensures (ok, contacted) == RotationOutcome(Entries(lines), outcomeOf)
  {
    ghost var hostcount := 0;
    var failed := false;
    contacted := [];
    var linenum := 0;
    while linenum < |lines|
      invariant 0 <= linenum <= |lines| && !failed
      invariant hostcount == Count(lines, linenum)
      invariant InStep(Entries(lines), outcomeOf, hostcount, contacted)
    {
      contacted, failed, hostcount := RotateFileLine(lines, outcomeOf, linenum, hostcount, contacted);
      if failed {
        break;
      }
      linenum := linenum + 1;
    }
    if !failed {
      CountSpec(lines, |lines|);
    }
    ok := !failed;
  }
}
