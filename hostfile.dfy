/** The host file and its first-pass validation (`basichostfilevalidation`).
    The file is a sequence of lines; a line is a string that may still carry its
    newline. Every host token is paired with its 1-based line number. */
module HostFile {
  import opened Text

  datatype HostEntry = HostEntry(host: string, line: nat)

  /** Lines that are empty or start with `#` are skipped; any other line is split
      on whitespace. */
  predicate IsSkipped(line: string) {
    |line| == 0 || line[0] == '#'
  }

  function LineHosts(line: string): seq<string> {
    if IsSkipped(line) then [] else Split(line)
  }

  function OnLine(hosts: seq<string>, line: nat): seq<HostEntry> {
    if hosts == [] then [] else [HostEntry(hosts[0], line)] + OnLine(hosts[1..], line)
  }

  lemma {:induction false} OnLineSpec(hosts: seq<string>, line: nat)
    ensures |OnLine(hosts, line)| == |hosts|
    ensures forall k :: 0 <= k < |hosts| ==> OnLine(hosts, line)[k] == HostEntry(hosts[k], line)
  {
    if hosts != [] {
      OnLineSpec(hosts[1..], line);
    }
  }

  /** Every host token of the first `n` lines, in file order, with the line it is on. */
  function EntriesUpTo(lines: seq<string>, n: nat): seq<HostEntry>
    requires n <= |lines|
    decreases n
  {
    if n == 0 then [] else EntriesUpTo(lines, n - 1) + OnLine(LineHosts(lines[n - 1]), n)
  }

  /** Every host token of the file. */
  function Entries(lines: seq<string>): seq<HostEntry> {
    EntriesUpTo(lines, |lines|)
  }

  /** The host names of the first `n` entries, in order. */
  function NamesUpTo(es: seq<HostEntry>, n: nat): seq<string>
    requires n <= |es|
    decreases n
  {
    if n == 0 then [] else NamesUpTo(es, n - 1) + [es[n - 1].host]
  }

  function HostNames(es: seq<HostEntry>): seq<string> {
    NamesUpTo(es, |es|)
  }

  lemma {:induction false} NamesSpec(es: seq<HostEntry>, n: nat)
    requires n <= |es|
    ensures |NamesUpTo(es, n)| == n
    ensures forall k :: 0 <= k < n ==> NamesUpTo(es, n)[k] == es[k].host
    decreases n
  {
    if n > 0 {
      NamesSpec(es, n - 1);
    }
  }

  /** The hosts of the file in the order every pass visits them. */
  function Hosts(lines: seq<string>): seq<string> {
    HostNames(Entries(lines))
  }

  /** Entries `i` and `j` name the same host, ignoring case. */
  predicate SameKey(es: seq<HostEntry>, i: nat, j: nat)
    requires i < |es| && j < |es|
  {
    Lower(es[i].host) == Lower(es[j].host)
  }

  /** No two of the first `n` entries name the same host, ignoring case. */
  predicate DistinctUpTo(es: seq<HostEntry>, n: nat)
    requires n <= |es|
  {
    forall i, j :: 0 <= i < j < n ==> !SameKey(es, i, j)
  }

  /** No two entries name the same host, ignoring case. */
  predicate CaseInsensitiveDistinct(es: seq<HostEntry>) {
    DistinctUpTo(es, |es|)
  }

  /** The file passes validation: at least one host, no case-insensitive repeat. */
  predicate RosterOk(lines: seq<string>) {
    |Entries(lines)| > 0 && CaseInsensitiveDistinct(Entries(lines))
  }

  // ---------------------------------------------------------------- facts about Entries

  lemma {:induction false} EntriesPrefix(lines: seq<string>, n: nat, m: nat)
    requires n <= m <= |lines|
    ensures EntriesUpTo(lines, n) <= EntriesUpTo(lines, m)
    decreases m - n
  {
    if n < m {
      EntriesPrefix(lines, n + 1, m);
    }
  }

  /** The number of host tokens on the first `n` lines. */
  function Count(lines: seq<string>, n: nat): nat
    requires n <= |lines|
    decreases n
  {
    if n == 0 then 0 else Count(lines, n - 1) + |LineHosts(lines[n - 1])|
  }

  /** The first `n` lines contribute `Count(lines, n)` entries, a prefix of all of them. */
  lemma {:induction false} CountSpec(lines: seq<string>, n: nat)
    requires n <= |lines|
    ensures |EntriesUpTo(lines, n)| == Count(lines, n) <= |Entries(lines)|
    decreases n
  {
    if n > 0 {
      CountSpec(lines, n - 1);
      OnLineSpec(LineHosts(lines[n - 1]), n);
    }
    EntriesPrefix(lines, n, |lines|);
  }

  /** Token `t` of line `n` is entry number `idx` = Count(lines, n) + t. */
  lemma EntryAt(lines: seq<string>, n: nat, t: nat, idx: nat)
    requires n < |lines| && t < |LineHosts(lines[n])| && idx == Count(lines, n) + t
    ensures idx < |Entries(lines)|
    ensures Entries(lines)[idx] == HostEntry(LineHosts(lines[n])[t], n + 1)
  {
    var toks := LineHosts(lines[n]);
    var own := OnLine(toks, n + 1);
    CountSpec(lines, n);
    OnLineSpec(toks, n + 1);
    EntriesPrefix(lines, n + 1, |lines|);
    assert EntriesUpTo(lines, n + 1)[idx] == own[t];
  }

  /** The hosts `toks` of line number `line` are the entries from `start` on. */
  predicate LineAt(es: seq<HostEntry>, start: nat, toks: seq<string>, line: nat) {
    start + |toks| <= |es| && forall t :: 0 <= t < |toks| ==> es[start + t] == HostEntry(toks[t], line)
  }

  /** The hosts of line `n` (0-based) are the entries after those of the lines before it. */
  lemma LineEntries(lines: seq<string>, n: nat)
    requires n < |lines|
    ensures LineAt(Entries(lines), Count(lines, n), LineHosts(lines[n]), n + 1)
    ensures Count(lines, n + 1) == Count(lines, n) + |LineHosts(lines[n])|
  {
    var toks := LineHosts(lines[n]);
    CountSpec(lines, n + 1);
    forall t | 0 <= t < |toks|
      ensures Entries(lines)[Count(lines, n) + t] == HostEntry(toks[t], n + 1)
    {
      EntryAt(lines, n, t, Count(lines, n) + t);
    }
  }

  /** The same for a line that is not skipped, as the passes split it. */
  lemma LineTokens(lines: seq<string>, n: nat, toks: seq<string>)
    requires n < |lines| && !IsSkipped(lines[n]) && toks == Split(lines[n])
    ensures LineAt(Entries(lines), Count(lines, n), toks, n + 1)
    ensures Count(lines, n + 1) == Count(lines, n) + |toks|
  {
    LineEntries(lines, n);
  }

  /** Each entry comes from the line it names: that line is not skipped and the
      host is one of its whitespace-separated tokens. */
  lemma {:induction false} EntryOrigin(lines: seq<string>, n: nat, k: nat)
    requires n <= |lines| && k < |EntriesUpTo(lines, n)|
    ensures var e := EntriesUpTo(lines, n)[k];
      1 <= e.line <= n && e.host in LineHosts(lines[e.line - 1])
    decreases n
  {
    var pre := EntriesUpTo(lines, n - 1);
    var own := OnLine(LineHosts(lines[n - 1]), n);
    OnLineSpec(LineHosts(lines[n - 1]), n);
    if k >= |pre| {
      assert EntriesUpTo(lines, n)[k] == own[k - |pre|];
    } else {
      EntryOrigin(lines, n - 1, k);
      assert EntriesUpTo(lines, n)[k] == pre[k];
    }
  }

  /** A comment line, an empty line or a line of only whitespace contributes no host. */
  lemma NoHostsFromLine(lines: seq<string>, n: nat)
    requires n < |lines|
    requires IsSkipped(lines[n]) || AllSpace(lines[n])
    ensures forall k :: 0 <= k < |Entries(lines)| ==> Entries(lines)[k].line != n + 1
  {
    if AllSpace(lines[n]) {
      SplitAllSpace(lines[n]);
    }
    forall k | 0 <= k < |Entries(lines)|
      ensures Entries(lines)[k].line != n + 1
    {
      EntryOrigin(lines, |lines|, k);
    }
  }

  // ---------------------------------------------------------------- validation

  datatype Validation =
    | Accepted(count: nat)
    | DuplicateEntry(host: string, line: nat, previous: nat)
    | NoHostNames

  /** The integer `basichostfilevalidation` returns: the host count, or -1. */
  function ValidationCode(v: Validation): (code: int)
    ensures code == -1 || (v.Accepted? && code == v.count)
    ensures v.Accepted? && v.count > 0 ==> code == v.count
  {
    if v.Accepted? then v.count else -1
  }

  /** The dictionary the scan builds from the first `n` entries: each lower-cased
      host mapped to the line it is on (a later entry would overwrite an earlier). */
  function KeyLines(es: seq<HostEntry>, n: nat): map<string, nat>
    requires n <= |es|
    decreases n
  {
    if n == 0 then map[] else KeyLines(es, n - 1)[Lower(es[n - 1].host) := es[n - 1].line]
  }

  /** Every one of the first `n` entries has its key in the dictionary; with no
      repeat so far, the key maps to that entry's line. */
  lemma {:induction false} KeyLinesHas(es: seq<HostEntry>, n: nat, i: nat)
    requires i < n <= |es|
    ensures Lower(es[i].host) in KeyLines(es, n)
    ensures DistinctUpTo(es, n) ==> KeyLines(es, n)[Lower(es[i].host)] == es[i].line
    decreases n
  {
    if i < n - 1 {
      KeyLinesHas(es, n - 1, i);
      if DistinctUpTo(es, n) {
        assert !SameKey(es, i, n - 1);
      }
    }
  }

  /** Every key in the dictionary comes from one of the first `n` entries. */
  lemma {:induction false} KeyLinesFrom(es: seq<HostEntry>, n: nat, key: string)
    requires n <= |es| && key in KeyLines(es, n)
    ensures exists i :: 0 <= i < n && Lower(es[i].host) == key
    decreases n
  {
    if Lower(es[n - 1].host) != key {
      KeyLinesFrom(es, n - 1, key);
    }
  }

  /** A host whose key is not yet recorded keeps the prefix free of repeats. */
  lemma NewKeyStep(es: seq<HostEntry>, pos: nat)
    requires pos < |es| && DistinctUpTo(es, pos) && Lower(es[pos].host) !in KeyLines(es, pos)
    ensures DistinctUpTo(es, pos + 1)
  {
    forall i | 0 <= i < pos ensures !SameKey(es, i, pos) {
      KeyLinesHas(es, pos, i);
    }
  }

  /** What `basichostfilevalidation` promises about the file's entries `es`:
      acceptance exactly when there is a host and no case-insensitive repeat, with
      the host count; the empty-file report exactly when there is no host; and a
      duplicate report naming the first entry that repeats an earlier one, its line,
      and the line of that earlier (first) occurrence. */
  ghost predicate ValidationMeets(es: seq<HostEntry>, r: Validation) {
    && (r.Accepted? <==> |es| > 0 && CaseInsensitiveDistinct(es))
    && (r.Accepted? ==> r.count == |es|)
    && (r.NoHostNames? <==> |es| == 0)
    && (r.DuplicateEntry? ==>
          exists i, j :: 0 <= i < j < |es| && DistinctUpTo(es, j) &&
            SameKey(es, i, j) &&
            r == DuplicateEntry(es[j].host, es[j].line, es[i].line))
  }

  /** Meeting a host whose lower-cased name is already recorded is reported with
      the line recorded for it, which is the line of its first occurrence. */
  lemma RepeatReported(es: seq<HostEntry>, pos: nat)
    requires pos < |es| && DistinctUpTo(es, pos) && Lower(es[pos].host) in KeyLines(es, pos)
    ensures ValidationMeets(es, DuplicateEntry(es[pos].host, es[pos].line, KeyLines(es, pos)[Lower(es[pos].host)]))
  {
    KeyLinesFrom(es, pos, Lower(es[pos].host));
    var i :| 0 <= i < pos && Lower(es[i].host) == Lower(es[pos].host);
    KeyLinesHas(es, pos, i);
    assert SameKey(es, i, pos);
  }

  lemma ScanCompleted(es: seq<HostEntry>)
    requires DistinctUpTo(es, |es|)
    ensures ValidationMeets(es, if |es| == 0 then NoHostNames else Accepted(|es|))
  {
  }

  /** The scan is consistent after the first `count` entries: `hosts` is the
      dictionary built from them and none repeats an earlier one. */
  ghost predicate Scanned(es: seq<HostEntry>, count: nat, hosts: map<string, nat>) {
    count <= |es| && hosts == KeyLines(es, count) && DistinctUpTo(es, count)
  }

  /** The inner `for host in line.split()` loop of `basichostfilevalidation` over
      the hosts `toks` of line number `line`, entries `count0` on: either every host
      is recorded, or the scan stops at entry `hostcount`, the first whose key is
      already recorded, and reports it with the line recorded for that key. */
  method ScanLine(ghost es: seq<HostEntry>, toks: seq<string>, line: nat, count0: nat, hosts0: map<string, nat>)
    returns (hosts: map<string, nat>, hostcount: nat, repeat: bool, r: Validation)
    requires LineAt(es, count0, toks, line) && Scanned(es, count0, hosts0)
    ensures Scanned(es, hostcount, hosts)
    ensures !repeat ==> hostcount == count0 + |toks|
    ensures repeat ==> hostcount < |es| && Lower(es[hostcount].host) in hosts
    ensures repeat ==> r == DuplicateEntry(es[hostcount].host, es[hostcount].line, hosts[Lower(es[hostcount].host)])
  {
    hosts, hostcount, repeat, r := hosts0, count0, false, NoHostNames;
    var t := 0;
    while t < |toks|
      invariant 0 <= t <= |toks|
      invariant hostcount == count0 + t && Scanned(es, hostcount, hosts)
    {
      var host := toks[t];
      if Lower(host) in hosts {
        r := DuplicateEntry(host, line, hosts[Lower(host)]);
        repeat := true;
        return;
      }
      NewKeyStep(es, hostcount);
      hosts := hosts[Lower(host) := line];
      hostcount := hostcount + 1;
      t := t + 1;
    }
  }

  /** One turn of the outer loop of `basichostfilevalidation`: line `linenum` is
      skipped, or its hosts are scanned; a repeat ends the validation. */
  method ScanFileLine(lines: seq<string>, linenum: nat, count0: nat, hosts0: map<string, nat>)
    returns (hosts: map<string, nat>, hostcount: nat, repeat: bool, r: Validation)
    requires linenum < |lines| && count0 == Count(lines, linenum)
    requires Scanned(Entries(lines), count0, hosts0)
    ensures !repeat ==> hostcount == Count(lines, linenum + 1) && Scanned(Entries(lines), hostcount, hosts)
    ensures repeat ==> ValidationMeets(Entries(lines), r)
  {
    hosts, hostcount, repeat, r := hosts0, count0, false, NoHostNames;
    if !IsSkipped(lines[linenum]) {
      var toks := Split(lines[linenum]);
      LineTokens(lines, linenum, toks);
      hosts, hostcount, repeat, r := ScanLine(Entries(lines), toks, linenum + 1, count0, hosts0);
      if repeat {
        RepeatReported(Entries(lines), hostcount);
      }
    }
  }

  /** `basichostfilevalidation` on an opened file: scans every line, keeps a map
      from lower-cased host to the line of its first occurrence, and stops at the
      first repeat. */
  method BasicHostFileValidation(lines: seq<string>) returns (r: Validation)
    ensures ValidationMeets(Entries(lines), r)
  {
    var hosts: map<string, nat> := map[];
    var hostcount := 0;
    var repeat := false;
    var linenum := 0;
    while linenum < |lines|
      invariant 0 <= linenum <= |lines| && !repeat
      invariant hostcount == Count(lines, linenum) && Scanned(Entries(lines), hostcount, hosts)
    {
      hosts, hostcount, repeat, r := ScanFileLine(lines, linenum, hostcount, hosts);
      if repeat {
        break;
      }
      linenum := linenum + 1;
    }
    if !repeat {
      CountSpec(lines, |lines|);
      ScanCompleted(Entries(lines));
      r := if hostcount == 0 then NoHostNames else Accepted(hostcount);
    }
  }
}
