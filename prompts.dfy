/** Password entry: the padding of the two prompts (`padoutprompts`) and the
    three-attempt entry protocol (`getpassword`). The terminal is a stream
    `typed`: `typed(p)` is what the operator types at the `p`-th hidden read. */
module Prompts {

  /** `'.' * n` */
  function Dots(n: nat): string {
    if n == 0 then [] else Dots(n - 1) + ['.']
  }

  lemma {:induction false} DotsSpec(n: nat)
    ensures |Dots(n)| == n
    ensures forall k :: 0 <= k < n ==> Dots(n)[k] == '.'
  {
    if n > 0 {
      DotsSpec(n - 1);
    }
  }

  function Max(a: nat, b: nat): nat {
    if a < b then b else a
  }

  /** `padoutprompts`: both prompts get " ...", the shorter is filled up with dots
      to the length of the longer, and both get a final ':'. */
  function PadOutPrompts(first: string, second: string): (r: (string, string))
    ensures |r.0| == |r.1| == Max(|first|, |second|) + 5
    ensures r.0[|r.0| - 1] == ':' && r.1[|r.1| - 1] == ':'
  {
    var a := first + " ...";
    var b := second + " ...";
    var delta := |a| - |b|;
    DotsSpec(if delta < 0 then -delta else delta);
    var a' := if delta < 0 then a + Dots(-delta) else a;
    var b' := if delta > 0 then b + Dots(delta) else b;
    (a' + ":", b' + ":")
  }

  /** `p` is `text`, then " ...", then only dots, then ':'. */
  predicate PaddedFrom(p: string, text: string) {
    && |p| >= |text| + 5
    && p[..|text| + 4] == text + " ..."
    && (forall k :: |text| + 4 <= k < |p| - 1 ==> p[k] == '.')
    && p[|p| - 1] == ':'
  }

  /** Each padded prompt keeps its own text and adds only dots; the longer prompt
      (either one when the lengths agree) gets no dots at all. */
  lemma PadOutPromptsShape(first: string, second: string)
    ensures PaddedFrom(PadOutPrompts(first, second).0, first)
    ensures PaddedFrom(PadOutPrompts(first, second).1, second)
    ensures |first| >= |second| ==> PadOutPrompts(first, second).0 == first + " ...:"
    ensures |second| >= |first| ==> PadOutPrompts(first, second).1 == second + " ...:"
  {
    var a := first + " ...";
    var b := second + " ...";
    var delta := |a| - |b|;
    DotsSpec(if delta < 0 then -delta else delta);
    var r := PadOutPrompts(first, second);
    assert r.0[..|first| + 4] == a;
    assert r.1[..|second| + 4] == b;
  }

  // ---------------------------------------------------------------- getpassword

  /** What a call of `getpassword` produced: the password ("" when it gave up),
      the read position after it, and the prompt shown at each read it made. */
  datatype Entry = Entry(password: string, next: nat, shown: seq<string>)

  /** The protocol from read position `pos` at attempt number `attempt`: an
      attempt reads the first prompt, and reads the second only when the first
      answer is not empty; matching non-empty answers end it, anything else starts
      the next attempt; after the third the protocol gives up. */
  function Session(typed: nat -> string, p1: string, p2: string, pos: nat, attempt: nat): Entry
    decreases 4 - attempt
  {
    if attempt > 3 then Entry("", pos, [])
    else if typed(pos) == "" then
      var rest := Session(typed, p1, p2, pos + 1, attempt + 1);
      Entry(rest.password, rest.next, [p1] + rest.shown)
    else if typed(pos + 1) == "" || typed(pos) != typed(pos + 1) then
      var rest := Session(typed, p1, p2, pos + 2, attempt + 1);
      Entry(rest.password, rest.next, [p1, p2] + rest.shown)
    else
      Entry(typed(pos), pos + 2, [p1, p2])
  }

  /** `getpassword(first, second)` with the terminal positioned at `start`. */
  function GetPasswordSpec(typed: nat -> string, first: string, second: string, start: nat): Entry {
    var prompts := PadOutPrompts(first, second);
    Session(typed, prompts.0, prompts.1, start, 1)
  }

  /** `getpassword`: pads the prompts, then makes up to three attempts. */
  method GetPassword(typed: nat -> string, first: string, second: string, start: nat)
    returns (password: string, next: nat, shown: seq<string>)
    ensures Entry(password, next, shown) == GetPasswordSpec(typed, first, second, start)
  {
    var prompts := PadOutPrompts(first, second);
    var prompt1, prompt2 := prompts.0, prompts.1;
    ghost var spec := GetPasswordSpec(typed, first, second, start);
    var pos := start;
    var attempts := 0;
    shown := [];
    while true
      invariant 0 <= attempts <= 3
      invariant Continues(spec, shown, Session(typed, prompt1, prompt2, pos, attempts + 1))
      decreases 3 - attempts
    {
      ghost var before, at := shown, pos;
      attempts := attempts + 1;
      if attempts > 3 {
        password, next := "", pos;
        return;
      }
      var pw1 := typed(pos);
      shown := shown + [prompt1];
      pos := pos + 1;
      if pw1 == "" {
        RetryAfterOneRead(typed, prompt1, prompt2, at, attempts);
        ContinuesStep(spec, before, [prompt1], Session(typed, prompt1, prompt2, pos, attempts + 1));
        continue;
      }
      var pw2 := typed(pos);
      shown := shown + [prompt2];
      pos := pos + 1;
      if pw2 == "" || pw1 != pw2 {
        assert shown == before + [prompt1, prompt2];
        RetryAfterTwoReads(typed, prompt1, prompt2, at, attempts, pw1, pw2);
        ContinuesStep(spec, before, [prompt1, prompt2], Session(typed, prompt1, prompt2, pos, attempts + 1));
        continue;
      }
      password, next := pw1, pos;
      return;
    }
  }

  /** After the reads that showed `shown`, the rest of the protocol yields `rest`
      and together they give `spec`. */
  predicate Continues(spec: Entry, shown: seq<string>, rest: Entry) {
    spec == Entry(rest.password, rest.next, shown + rest.shown)
  }

  lemma RetryAfterOneRead(typed: nat -> string, p1: string, p2: string, pos: nat, attempt: nat)
    requires attempt <= 3 && typed(pos) == ""
    ensures var rest := Session(typed, p1, p2, pos + 1, attempt + 1);
      Session(typed, p1, p2, pos, attempt) == Entry(rest.password, rest.next, [p1] + rest.shown)
  {
  }

  lemma RetryAfterTwoReads(typed: nat -> string, p1: string, p2: string, pos: nat, attempt: nat, pw1: string, pw2: string)
    requires attempt <= 3 && pw1 == typed(pos) && pw2 == typed(pos + 1) && pw1 != "" && (pw2 == "" || pw1 != pw2)
    ensures var rest := Session(typed, p1, p2, pos + 2, attempt + 1);
      Session(typed, p1, p2, pos, attempt) == Entry(rest.password, rest.next, [p1, p2] + rest.shown)
  {
  }

  lemma ContinuesStep(spec: Entry, before: seq<string>, more: seq<string>, rest: Entry)
    requires Continues(spec, before, Entry(rest.password, rest.next, more + rest.shown))
    ensures Continues(spec, before + more, rest)
  {
  }

  // ---------------------------------------------------------------- properties

  /** `e` made its reads from `pos` on and showed one prompt at each. */
  predicate ShownPerRead(e: Entry, pos: nat) {
    pos <= e.next && |e.shown| == e.next - pos
  }

  /** Each read shows one prompt: the prompts shown are as many as the reads made. */
  lemma {:induction false} SessionReads(typed: nat -> string, p1: string, p2: string, pos: nat, attempt: nat)
    ensures ShownPerRead(Session(typed, p1, p2, pos, attempt), pos)
    decreases 4 - attempt
  {
    if attempt <= 3 {
      if typed(pos) == "" {
        SessionReads(typed, p1, p2, pos + 1, attempt + 1);
        RetryAfterOneRead(typed, p1, p2, pos, attempt);
        ShownPerReadLater(Session(typed, p1, p2, pos + 1, attempt + 1), [p1], pos);
      } else if typed(pos + 1) == "" || typed(pos) != typed(pos + 1) {
        SessionReads(typed, p1, p2, pos + 2, attempt + 1);
        RetryAfterTwoReads(typed, p1, p2, pos, attempt, typed(pos), typed(pos + 1));
        ShownPerReadLater(Session(typed, p1, p2, pos + 2, attempt + 1), [p1, p2], pos);
      }
    }
  }

  lemma ShownPerReadLater(rest: Entry, more: seq<string>, pos: nat)
    requires ShownPerRead(rest, pos + |more|)
    ensures ShownPerRead(Entry(rest.password, rest.next, more + rest.shown), pos)
  {
  }

  /** The password of `e` (when there is one) was typed at the two reads before
      `e.next`, both after `pos`. */
  predicate TypedTwice(typed: nat -> string, e: Entry, pos: nat) {
    e.password != "" ==> e.next >= pos + 2 && typed(e.next - 2) == e.password && typed(e.next - 1) == e.password
  }

  /** A password is returned only when the last two reads gave it, both times. */
  lemma {:induction false} SessionSound(typed: nat -> string, p1: string, p2: string, pos: nat, attempt: nat)
    ensures TypedTwice(typed, Session(typed, p1, p2, pos, attempt), pos)
    decreases 4 - attempt
  {
    if attempt <= 3 {
      if typed(pos) == "" {
        SessionSound(typed, p1, p2, pos + 1, attempt + 1);
        RetryAfterOneRead(typed, p1, p2, pos, attempt);
        TypedTwiceLater(typed, Session(typed, p1, p2, pos + 1, attempt + 1), Session(typed, p1, p2, pos, attempt), pos + 1, pos);
      } else if typed(pos + 1) == "" || typed(pos) != typed(pos + 1) {
        SessionSound(typed, p1, p2, pos + 2, attempt + 1);
        RetryAfterTwoReads(typed, p1, p2, pos, attempt, typed(pos), typed(pos + 1));
        TypedTwiceLater(typed, Session(typed, p1, p2, pos + 2, attempt + 1), Session(typed, p1, p2, pos, attempt), pos + 2, pos);
      }
    }
  }

  lemma TypedTwiceLater(typed: nat -> string, rest: Entry, e: Entry, later: nat, pos: nat)
    requires TypedTwice(typed, rest, later) && pos <= later
    requires e.password == rest.password && e.next == rest.next
    ensures TypedTwice(typed, e, pos)
  {
  }

  /** At most two reads per attempt and at most three attempts. */
  lemma SessionBounded(typed: nat -> string, p1: string, p2: string, pos: nat, attempt: nat)
    requires 1 <= attempt <= 4
    ensures Session(typed, p1, p2, pos, attempt).next <= pos + 2 * (4 - attempt)
  {
  }

  /** Every read shows one of the two prompts, the first prompt opening the protocol. */
  lemma {:induction false} SessionShowsPrompts(typed: nat -> string, p1: string, p2: string, pos: nat, attempt: nat)
    ensures var e := Session(typed, p1, p2, pos, attempt);
      (forall k :: 0 <= k < |e.shown| ==> e.shown[k] == p1 || e.shown[k] == p2) &&
      (|e.shown| > 0 ==> e.shown[0] == p1)
    decreases 4 - attempt
  {
    if attempt <= 3 {
      SessionShowsPrompts(typed, p1, p2, pos + 1, attempt + 1);
      SessionShowsPrompts(typed, p1, p2, pos + 2, attempt + 1);
    }
  }

  /** Only the reads it made decide the outcome: what the operator would have typed
      afterwards (a fourth attempt, say) is never looked at. */
  lemma {:induction false} SessionReadsOnlyItsEntries(typed: nat -> string, other: nat -> string,
                                                      p1: string, p2: string, pos: nat, attempt: nat)
    requires forall p :: pos <= p < Session(typed, p1, p2, pos, attempt).next ==> other(p) == typed(p)
    ensures Session(other, p1, p2, pos, attempt) == Session(typed, p1, p2, pos, attempt)
    decreases 4 - attempt
  {
    SessionReads(typed, p1, p2, pos, attempt);
    if attempt <= 3 {
      if typed(pos) == "" {
        SessionReads(typed, p1, p2, pos + 1, attempt + 1);
        SessionReadsOnlyItsEntries(typed, other, p1, p2, pos + 1, attempt + 1);
      } else {
        assert other(pos) == typed(pos) && other(pos + 1) == typed(pos + 1);
        if typed(pos + 1) == "" || typed(pos) != typed(pos + 1) {
          SessionReads(typed, p1, p2, pos + 2, attempt + 1);
          SessionReadsOnlyItsEntries(typed, other, p1, p2, pos + 2, attempt + 1);
        }
      }
    }
  }

  /** Three empty first answers exhaust the attempts after three reads, whatever
      follows: an empty first answer does not consume a second read. */
  lemma ThreeEmptyAnswersGiveUp(typed: nat -> string, p1: string, p2: string, pos: nat)
    requires typed(pos) == "" && typed(pos + 1) == "" && typed(pos + 2) == ""
    ensures Session(typed, p1, p2, pos, 1) == Entry("", pos + 3, [p1, p1, p1])
  {
  }

  /** Two equal non-empty answers on the first attempt are accepted. */
  lemma FirstAttemptAccepted(typed: nat -> string, p1: string, p2: string, pos: nat)
    requires typed(pos) != "" && typed(pos + 1) == typed(pos)
    ensures Session(typed, p1, p2, pos, 1) == Entry(typed(pos), pos + 2, [p1, p2])
  {
  }
}
