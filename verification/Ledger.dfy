// Who owns which descriptor: the account a reader of descriptor events keeps over
// its whole life, and the theorem about every run of reads.
module Ledger {
  import opened Wrappers
  import opened Bytes
  import opened EventWalk

  // What one `read(2)` came back with. `installed` are the descriptors the kernel
  // put into this process's table for it.
  datatype ReadAnswer =
    | Failed(errno: int)
    | Delivered(bytes: seq<byte>, installed: set<int>)

  // `open` is the process's descriptor table; the rest is the reader's: what it
  // owns now, what it ever adopted and what it ever closed, in order.
  datatype Account = Account(open: set<int>, owned: seq<int>, adopted: seq<int>, closed: seq<int>)

  function ToSet(s: seq<int>): set<int> {
    set x | x in s
  }

  predicate Distinct(s: seq<int>) {
    forall i, j :: 0 <= i < j < |s| ==> s[i] != s[j]
  }

  // The `fd` fields of the events a walk finds.
  function FieldsOf(bytes: seq<byte>): seq<int> {
    var frames := Walk(bytes, 0, false).frames;
    seq(|frames|, k requires 0 <= k < |frames| => frames[k].meta.fd)
  }

  // A descriptor number is owned by the first event naming it.
  function Owner(fields: seq<int>, k: nat): Option<int>
    requires k < |fields|
  {
    if fields[k] >= 0 && fields[k] !in fields[..k] then Some(fields[k]) else None
  }

  function Owners(fields: seq<int>): seq<Option<int>> {
    seq(|fields|, k requires 0 <= k < |fields| => Owner(fields, k))
  }

  function Numbers(fds: seq<Option<int>>): seq<int> {
    if |fds| == 0 then []
    else
      var n := |fds| - 1;
      Numbers(fds[..n]) + (if fds[n].Some? then [fds[n].value] else [])
  }

  function Adopts(bytes: seq<byte>): seq<int> {
    Numbers(Owners(FieldsOf(bytes)))
  }

  // What the read path relies on: the kernel's descriptors are new to this
  // process, a non-negative number in a header is one of them, and when the walk
  // gets to the end every one of them is named in a header it saw.
  predicate Honest(open: set<int>, answer: ReadAnswer) {
    answer.Delivered? ==>
      && answer.installed !! open
      && (forall n :: n in FieldsOf(answer.bytes) && n >= 0 ==> n in answer.installed)
      && (Walk(answer.bytes, 0, false).stop == End ==>
            forall n :: n in answer.installed ==> n in FieldsOf(answer.bytes) && n >= 0)
  }

  // Every descriptor the reader owns is closed: what the start of a read does, and
  // what dropping the reader does.
  function CloseAll(a: Account): Account {
    Account(a.open - ToSet(a.owned), [], a.adopted, a.closed + a.owned)
  }

  function ReadStep(a: Account, answer: ReadAnswer): Account {
    var c := CloseAll(a);
    match answer
    case Failed(_) => c
    case Delivered(bytes, installed) =>
      Account(c.open + installed, Adopts(bytes), c.adopted + Adopts(bytes), c.closed)
  }

  // What happens in the process: the reader reads, or something else opens and
  // closes descriptors of its own.
  datatype Step =
    | Read(answer: ReadAnswer)
    | Elsewhere(opens: set<int>, closes: set<int>)

  function Next(a: Account, step: Step): Account {
    match step
    case Read(answer) => ReadStep(a, answer)
    case Elsewhere(opens, closes) => a.(open := a.open + opens - closes)
  }

  // What opens elsewhere is new, and nothing else closes what the reader owns.
  predicate HonestStep(a: Account, step: Step) {
    match step
    case Read(answer) => Honest(CloseAll(a).open, answer)
    case Elsewhere(opens, closes) => opens !! a.open && closes !! ToSet(a.owned)
  }

  function Run(a: Account, steps: seq<Step>): Account {
    if |steps| == 0 then a
    else Next(Run(a, steps[..|steps| - 1]), steps[|steps| - 1])
  }

  predicate HonestRun(a: Account, steps: seq<Step>) {
    |steps| == 0 ||
    (var n := |steps| - 1;
     HonestRun(a, steps[..n]) && HonestStep(Run(a, steps[..n]), steps[n]))
  }

  // What is open without the reader: as it was, but for what happened elsewhere.
  function Others(open: set<int>, steps: seq<Step>): set<int> {
    if |steps| == 0 then open
    else
      var n := |steps| - 1;
      match steps[n]
      case Read(_) => Others(open, steps[..n])
      case Elsewhere(opens, closes) => Others(open, steps[..n]) + opens - closes
  }

  // What no walk adopted although the kernel installed it, until something else
  // closes it.
  function Leaked(steps: seq<Step>): set<int> {
    if |steps| == 0 then {}
    else
      var n := |steps| - 1;
      match steps[n]
      case Read(Failed(_)) => Leaked(steps[..n])
      case Read(Delivered(bytes, installed)) => Leaked(steps[..n]) + (installed - ToSet(Adopts(bytes)))
      case Elsewhere(_, closes) => Leaked(steps[..n]) - closes
  }

  function Fresh(open: set<int>): Account {
    Account(open, [], [], [])
  }

  // ----- Adoption. -----

  lemma {:induction false} InNumbers(fds: seq<Option<int>>, n: int)
    ensures n in Numbers(fds) <==> Some(n) in fds
  {
    if |fds| != 0 {
      InNumbers(fds[..|fds| - 1], n);
      assert fds == fds[..|fds| - 1] + [fds[|fds| - 1]];
    }
  }

  lemma {:induction false} NumbersAppend(a: seq<Option<int>>, b: seq<Option<int>>)
    ensures Numbers(a + b) == Numbers(a) + Numbers(b)
    decreases |b|
  {
    if |b| == 0 {
      assert a + b == a;
    } else {
      var n := |b| - 1;
      assert (a + b)[..|a + b| - 1] == a + b[..n];
      NumbersAppend(a, b[..n]);
    }
  }

  predicate OneOwnerEach(fds: seq<Option<int>>) {
    forall i, j :: 0 <= i < j < |fds| && fds[i].Some? ==> fds[i] != fds[j]
  }

  lemma {:induction false} NumbersDistinct(fds: seq<Option<int>>)
    requires OneOwnerEach(fds)
    ensures Distinct(Numbers(fds))
  {
    if |fds| != 0 {
      var n := |fds| - 1;
      assert forall i :: 0 <= i < n ==> fds[..n][i] == fds[i];
      NumbersDistinct(fds[..n]);
      if fds[n].Some? {
        InNumbers(fds[..n], fds[n].value);
      }
    }
  }

  // The numbers a buffer's events come to own are its non-negative `fd` fields,
  // each owned once.
  lemma AdoptionIsExact(fields: seq<int>)
    ensures OneOwnerEach(Owners(fields)) && Distinct(Numbers(Owners(fields)))
    ensures forall n :: n in Numbers(Owners(fields)) <==> n in fields && n >= 0
  {
    var owners := Owners(fields);
    forall i, j | 0 <= i < j < |owners| && owners[i].Some?
      ensures owners[i] != owners[j]
    {
      assert fields[i] in fields[..j];
    }
    NumbersDistinct(owners);
    forall n
      ensures n in Numbers(owners) <==> n in fields && n >= 0
    {
      InNumbers(owners, n);
      if n in fields && n >= 0 {
        var k := FirstPlace(fields, n);
        assert owners[k] == Some(n);
      }
      if Some(n) in owners {
        var k :| 0 <= k < |owners| && owners[k] == Some(n);
        assert fields[k] == n;
      }
    }
  }

  lemma {:induction false} FirstPlace(fields: seq<int>, n: int) returns (k: nat)
    requires n in fields
    ensures k < |fields| && fields[k] == n && n !in fields[..k]
  {
    var last := |fields| - 1;
    if n in fields[..last] {
      k := FirstPlace(fields[..last], n);
      assert fields[..last][..k] == fields[..k];
    } else {
      k := last;
    }
  }

  // ----- The account over a run. -----

  ghost predicate Balanced(open: set<int>, steps: seq<Step>, a: Account) {
    && Distinct(a.owned)
    && a.adopted == a.closed + a.owned
    && ToSet(a.owned) !! Others(open, steps)
    && ToSet(a.owned) !! Leaked(steps)
    && a.open == Others(open, steps) + ToSet(a.owned) + Leaked(steps)
  }

  lemma AdoptedWereInstalled(open: set<int>, answer: ReadAnswer)
    requires Honest(open, answer) && answer.Delivered?
    ensures ToSet(Adopts(answer.bytes)) <= answer.installed
    ensures Distinct(Adopts(answer.bytes))
    ensures Walk(answer.bytes, 0, false).stop == End ==> answer.installed == ToSet(Adopts(answer.bytes))
  {
    hide Walk;
    var fields := FieldsOf(answer.bytes);
    AdoptionIsExact(fields);
    forall n
      ensures n in Adopts(answer.bytes) <==> n in fields && n >= 0
    {
      assert n in Numbers(Owners(fields)) <==> n in fields && n >= 0;
    }
    if Walk(answer.bytes, 0, false).stop == End {
      forall n | n in answer.installed
        ensures n in Adopts(answer.bytes)
      {
      }
    }
  }

  lemma StepBalances(open: set<int>, steps: seq<Step>, a: Account, step: Step)
    requires Balanced(open, steps, a) && HonestStep(a, step)
    ensures Balanced(open, steps + [step], Next(a, step))
  {
    assert (steps + [step])[..|steps|] == steps;
    var c := CloseAll(a);
    assert c.adopted == c.closed && c.open == Others(open, steps) + Leaked(steps);
    match step
    case Read(Failed(_)) =>
      assert c.closed + [] == c.closed;
    case Read(Delivered(bytes, installed)) =>
      var owned := Adopts(bytes);
      AdoptedWereInstalled(c.open, step.answer);
      assert installed == ToSet(owned) + (installed - ToSet(owned));
    case Elsewhere(opens, closes) =>
      assert Next(a, step).open ==
        (Others(open, steps) + opens - closes) + ToSet(a.owned) + (Leaked(steps) - closes);
  }

  lemma {:induction false} RunBalances(open: set<int>, steps: seq<Step>)
    requires HonestRun(Fresh(open), steps)
    ensures Balanced(open, steps, Run(Fresh(open), steps))
  {
    if |steps| != 0 {
      var n := |steps| - 1;
      RunBalances(open, steps[..n]);
      StepBalances(open, steps[..n], Run(Fresh(open), steps[..n]), steps[n]);
      assert steps[..n] + [steps[n]] == steps;
    }
  }

  // Over every run of reads, successful, empty and failed, with anything happening
  // elsewhere in between, and the drop at its end: what is owned is open, owned once
  // and nobody else's; the closes are the adoptions, each once and in order; what
  // others have open is open still; and what else is open was leaked by a walk that
  // did not reach the end.
  lemma DescriptorLedger(open: set<int>, steps: seq<Step>)
    requires HonestRun(Fresh(open), steps)
    ensures var a := Run(Fresh(open), steps);
      && Distinct(a.owned) && ToSet(a.owned) <= a.open - Others(open, steps)
      && CloseAll(a).owned == [] && CloseAll(a).closed == CloseAll(a).adopted
      && Others(open, steps) <= a.open
      && CloseAll(a).open == Others(open, steps) + Leaked(steps)
  {
    RunBalances(open, steps);
  }

  predicate ReadsToTheEnd(step: Step) {
    step.Read? && step.answer.Delivered? ==> Walk(step.answer.bytes, 0, false).stop == End
  }

  // A walk that reaches the end leaks nothing, so after a run of complete walks only
  // others have anything open.
  lemma {:induction false} CompleteWalksLeakNothing(open: set<int>, steps: seq<Step>)
    requires HonestRun(Fresh(open), steps)
    requires forall i :: 0 <= i < |steps| ==> ReadsToTheEnd(steps[i])
    ensures Leaked(steps) == {}
    ensures CloseAll(Run(Fresh(open), steps)).open == Others(open, steps)
  {
    if |steps| != 0 {
      var n := |steps| - 1;
      assert forall i :: 0 <= i < n ==> steps[..n][i] == steps[i];
      CompleteWalksLeakNothing(open, steps[..n]);
      assert ReadsToTheEnd(steps[n]);
      if steps[n].Read? && steps[n].answer.Delivered? {
        AdoptedWereInstalled(CloseAll(Run(Fresh(open), steps[..n])).open, steps[n].answer);
      }
    }
    DescriptorLedger(open, steps);
  }
}
