/**
  What executions of the EVM touch, and what the analyser makes of the trace of one. Executions have their real stacks
  and accounts; a trace, as a client reports it, has neither.
 */
module EvmFootprint {
  import opened Bytes
  import opened EvmTrace

  datatype Sort =
    | LoadOp | StoreOp | BalanceOp | CodeOp | DestructOp
    | CallOp | CallCodeOp | DelegateOp | StaticOp | CreateOp
    | BlockHashOp | OtherOp

  datatype Operation = Operation(sort: Sort, takes: nat, leaves: nat)

  /** The operations of the Yellow Paper and of EIP-1014, EIP-1344 and EIP-1884, with the words they take and leave. */
  function Opcode(b: byte): Option<Operation>
  {
    if b < 0x20 then Arithmetic(b)
    else if b < 0x50 then Environment(b)
    else if b < 0x60 then Machine(b)
    else if b < 0x80 then Some(Operation(OtherOp, 0, 1))
    else if b < 0x90 then Some(Operation(OtherOp, b - 0x80 + 1, b - 0x80 + 2))
    else if b < 0xa0 then Some(Operation(OtherOp, b - 0x90 + 2, b - 0x90 + 2))
    else if b <= 0xa4 then Some(Operation(OtherOp, b - 0xa0 + 2, 0))
    else System(b)
  }

  function Arithmetic(b: byte): Option<Operation>
  {
    if b == 0x00 then Some(Operation(OtherOp, 0, 0))
    else if b == 0x08 || b == 0x09 then Some(Operation(OtherOp, 3, 1))
    else if b == 0x15 || b == 0x19 then Some(Operation(OtherOp, 1, 1))
    else if b <= 0x0b || 0x10 <= b <= 0x1d then Some(Operation(OtherOp, 2, 1))
    else None
  }

  function Environment(b: byte): Option<Operation>
  {
    match b
    case 0x20 => Some(Operation(OtherOp, 2, 1))
    case 0x31 => Some(Operation(BalanceOp, 1, 1))
    case 0x35 => Some(Operation(OtherOp, 1, 1))
    case 0x37 => Some(Operation(OtherOp, 3, 0))
    case 0x39 => Some(Operation(OtherOp, 3, 0))
    case 0x3b => Some(Operation(CodeOp, 1, 1))
    case 0x3c => Some(Operation(CodeOp, 4, 0))
    case 0x3e => Some(Operation(OtherOp, 3, 0))
    case 0x3f => Some(Operation(CodeOp, 1, 1))
    case 0x40 => Some(Operation(BlockHashOp, 1, 1))
    case _ => if 0x30 <= b <= 0x47 then Some(Operation(OtherOp, 0, 1)) else None
  }

  function Machine(b: byte): Option<Operation>
  {
    match b
    case 0x50 => Some(Operation(OtherOp, 1, 0))
    case 0x51 => Some(Operation(OtherOp, 1, 1))
    case 0x52 => Some(Operation(OtherOp, 2, 0))
    case 0x53 => Some(Operation(OtherOp, 2, 0))
    case 0x54 => Some(Operation(LoadOp, 1, 1))
    case 0x55 => Some(Operation(StoreOp, 2, 0))
    case 0x56 => Some(Operation(OtherOp, 1, 0))
    case 0x57 => Some(Operation(OtherOp, 2, 0))
    case 0x5b => Some(Operation(OtherOp, 0, 0))
    case _ => if 0x58 <= b <= 0x5a then Some(Operation(OtherOp, 0, 1)) else None
  }

  function System(b: byte): Option<Operation>
  {
    match b
    case 0xf0 => Some(Operation(CreateOp, 3, 1))
    case 0xf1 => Some(Operation(CallOp, 7, 1))
    case 0xf2 => Some(Operation(CallCodeOp, 7, 1))
    case 0xf3 => Some(Operation(OtherOp, 2, 0))
    case 0xf4 => Some(Operation(DelegateOp, 6, 1))
    case 0xf5 => Some(Operation(CreateOp, 4, 1))
    case 0xfa => Some(Operation(StaticOp, 6, 1))
    case 0xfd => Some(Operation(OtherOp, 2, 0))
    case 0xff => Some(Operation(DestructOp, 1, 0))
    case _ => None
  }

  predicate IsCallSort(c: Sort)
  {
    c in {CallOp, CallCodeOp, DelegateOp, StaticOp}
  }

  // ---------------------------------------------------------------- executions

  /**
    One operation: the stack it finds, the words it leaves unless it fails, and the execution it starts, if any.
    `made` is the account that a creation makes.
   */
  datatype Step = Step(pc: nat, stack: seq<Word>, result: Option<seq<Word>>, inner: Option<Exec>, made: Word)

  /** Code that runs on the storage of the account `self`. */
  datatype Exec = Exec(self: Word, code: seq<byte>, steps: seq<Step>)

  function Top(s: Step): Word
  {
    if s.stack == [] then "" else s.stack[|s.stack| - 1]
  }

  function Second(s: Step): Word
  {
    if |s.stack| < 2 then "" else s.stack[|s.stack| - 2]
  }

  function OperationAt(x: Exec, i: nat): Operation
    requires i < |x.steps|
  {
    var pc := x.steps[i].pc;
    if pc < |x.code| && Opcode(x.code[pc]).Some? then Opcode(x.code[pc]).value else Operation(OtherOp, 0, 0)
  }

  /** A call runs on the storage of the account it names, except for the two that run other code on the caller's own. */
  function InnerSelf(c: Sort, self: Word, s: Step): Word
  {
    match c
    case CallOp => Second(s)
    case StaticOp => Second(s)
    case CreateOp => s.made
    case _ => self
  }

  function StackAfter(x: Exec, i: nat): seq<Word>
    requires i < |x.steps|
  {
    var s := x.steps[i];
    Popped(s.stack, OperationAt(x, i).takes) + (if s.result.Some? then s.result.value else [])
  }

  /** The words of a stack are written out. */
  predicate Written(ws: seq<Word>)
  {
    forall k :: 0 <= k < |ws| ==> ws[k] != ""
  }

  predicate Valid(x: Exec)
    decreases x, 1
  {
    x.self != "" && forall i :: 0 <= i < |x.steps| ==> ValidStep(x, i)
  }

  /** A step finds what the one before, which did not fail, has left, and enough of it. */
  predicate ValidStep(x: Exec, i: nat)
    requires i < |x.steps|
    decreases x, 0
  {
    var s, op := x.steps[i], OperationAt(x, i);
    && s.pc < |x.code| && Opcode(x.code[s.pc]).Some?
    && |s.stack| >= op.takes && Written(s.stack)
    && (s.result.Some? ==> |s.result.value| == op.leaves && Written(s.result.value))
    && s.stack == (if i == 0 then [] else StackAfter(x, i - 1))
    && (i > 0 ==> x.steps[i - 1].result.Some?)
    && (op.sort.CreateOp? ==> s.made != "")
    && (s.inner.Some? ==>
          && (IsCallSort(op.sort) || op.sort.CreateOp?)
          && Valid(s.inner.value) && s.inner.value.self == InnerSelf(op.sort, x.self, s))
  }

  /** What a client reports of an execution. */
  function TraceOf(x: Exec): (t: Trace)
    ensures t.code == x.code && |t.ops| == |x.steps|
    decreases x, 1
  {
    Trace(x.code, seq(|x.steps|, i requires 0 <= i < |x.steps| => ReportOf(x.steps[i])))
  }

  function ReportOf(s: Step): Op
    decreases s, 0
  {
    Op(s.pc, s.result, if s.inner.Some? then Some(TraceOf(s.inner.value)) else None)
  }

  // ---------------------------------------------------------------- which traces are analysed

  /** The operations the analyser's table does not list: CHAINID, SELFBALANCE and CREATE2. */
  predicate Unlisted(b: byte)
  {
    b == 0x46 || b == 0x47 || b == 0xf5
  }

  /** Every operation is listed and none fails. */
  predicate Supported(x: Exec)
    decreases x, 1
  {
    forall i :: 0 <= i < |x.steps| ==> SupportedStep(x, i)
  }

  predicate SupportedStep(x: Exec, i: nat)
    requires i < |x.steps|
    decreases x, 0
  {
    var s := x.steps[i];
    && s.pc < |x.code| && !Unlisted(x.code[s.pc])
    && s.result.Some? && (s.inner.Some? ==> Supported(s.inner.value))
  }

  predicate SameKind(k: Kind, c: Sort)
  {
    match c
    case LoadOp => k.SLoad?
    case BalanceOp => k.Balance?
    case CodeOp => k.ExtCode?
    case CallOp => k.Call?
    case CallCodeOp => k.CallCode?
    case DelegateOp => k.DelegateCall?
    case StaticOp => k.StaticCall?
    case CreateOp => k.Create?
    case BlockHashOp => k.BlockHash?
    case _ => k.Plain?
  }

  /** The analyser's table agrees with the standard on every operation it lists. */
  lemma TableIsStandard(b: byte)
    ensures Table(b).Some? <==> Opcode(b).Some? && !Unlisted(b)
    ensures Table(b).Some? ==>
              var info, op := Table(b).value, Opcode(b).value;
              info.del == op.takes && info.add == op.leaves && SameKind(info.kind, op.sort)
  {
  }

  lemma InfoIsOperation(x: Exec, i: nat)
    requires i < |x.steps| && ValidStep(x, i)
    ensures var info, op := InfoAt(Table, TraceOf(x), x.steps[i].pc), OperationAt(x, i);
            && (info.Some? <==> !Unlisted(x.code[x.steps[i].pc]))
            && (info.Some? ==>
                info.value.del == op.takes && info.value.add == op.leaves && SameKind(info.value.kind, op.sort))
  {
    TableIsStandard(x.code[x.steps[i].pc]);
  }

  /** The trace of an execution is accepted if and only if every operation is listed and none fails. */
  lemma {:induction false} AcceptedExactly(x: Exec)
    requires Valid(x)
    ensures Accepted(Table, TraceOf(x)) <==> Supported(x)
    decreases x, 1
  {
    forall i | 0 <= i < |x.steps| ensures AcceptedOp(Table, TraceOf(x), i) <==> SupportedStep(x, i) {
      StepAcceptedExactly(x, i);
    }
  }

  lemma {:induction false} StepAcceptedExactly(x: Exec, i: nat)
    requires i < |x.steps| && ValidStep(x, i)
    ensures AcceptedOp(Table, TraceOf(x), i) <==> SupportedStep(x, i)
    decreases x, 0
  {
    hide Table, Opcode;
    InfoIsOperation(x, i);
    if x.steps[i].inner.Some? {
      AcceptedExactly(x.steps[i].inner.value);
    }
  }

  lemma StepOf(x: Exec, i: nat)
    requires Valid(x) && Supported(x) && i < |x.steps|
    ensures ValidStep(x, i) && SupportedStep(x, i) && x.self != ""
    ensures |TraceOf(x).ops| == |x.steps| && TraceOf(x).ops[i] == ReportOf(x.steps[i])
  {
  }

  lemma StepFollows(x: Exec, i: nat)
    requires i < |x.steps| && ValidStep(x, i)
    ensures x.steps[i].stack == if i == 0 then [] else StackAfter(x, i - 1)
    ensures ReportOf(x.steps[i]).ex == x.steps[i].result && ReportOf(x.steps[i]).pc == x.steps[i].pc
    ensures SupportedStep(x, i) ==> x.steps[i].pc < |x.code| && !Unlisted(x.code[x.steps[i].pc])
    ensures SupportedStep(x, i) ==> x.steps[i].result.Some?
    ensures Written(x.steps[i].stack)
    ensures x.steps[i].inner.Some? ==>
              var y, op := x.steps[i].inner.value, OperationAt(x, i);
              && (IsCallSort(op.sort) || op.sort.CreateOp?)
              && Valid(y) && y.self == InnerSelf(op.sort, x.self, x.steps[i]) && (SupportedStep(x, i) ==> Supported(y))
  {
  }

  /** The stack the analyser rebuilds is the one the operation found. */
  lemma {:induction false} StackIsRebuilt(x: Exec, i: nat)
    requires Valid(x) && Supported(x) && i < |x.steps|
    ensures |TraceOf(x).ops| == |x.steps| && StackAt(Table, TraceOf(x), i) == x.steps[i].stack
    decreases i
  {
    hide Table, Opcode, Valid, Supported, ValidStep, SupportedStep, TraceOf, InfoAt, ReportOf;
    StepOf(x, i);
    StepFollows(x, i);
    if i > 0 {
      StepOf(x, i - 1);
      StepFollows(x, i - 1);
      StackIsRebuilt(x, i - 1);
      InfoIsOperation(x, i - 1);
    }
  }

  // ---------------------------------------------------------------- what an execution touches

  /**
    An operation of the sort `sort` on the storage of `account`; `booked` is the account the analyser has in its place.
   */
  datatype Site = Site(account: Word, booked: Word, step: Step, sort: Sort)

  function Sites(x: Exec, booked: Word): seq<Site>
    decreases x, |x.steps| + 1
  {
    SitesBefore(x, booked, |x.steps|)
  }

  /** The operations of the first `n` steps and of all executions nested in them. */
  function SitesBefore(x: Exec, booked: Word, n: nat): seq<Site>
    requires n <= |x.steps|
    decreases x, n
  {
    if n == 0 then [] else SitesBefore(x, booked, n - 1) + SitesAt(x, booked, n - 1)
  }

  function SitesAt(x: Exec, booked: Word, i: nat): seq<Site>
    requires i < |x.steps|
    decreases x, i
  {
    var s, sort := x.steps[i], OperationAt(x, i).sort;
    [Site(x.self, booked, s, sort)]
    + if s.inner.Some? then Sites(s.inner.value, BookedFor(sort, booked, s)) else []
  }

  /** The analyser changes the account with the calls that do, but not with a creation. */
  function BookedFor(c: Sort, booked: Word, s: Step): Word
  {
    if c.CallOp? || c.StaticOp? then Second(s) else booked
  }

  predicate Loads(s: Site, account: Word, key: Word)
  {
    s.sort.LoadOp? && s.account == account && Top(s.step) == key
  }

  predicate Stores(s: Site, account: Word, key: Word)
  {
    s.sort.StoreOp? && s.account == account && Top(s.step) == key
  }

  /** The storage slot is read or written. */
  ghost predicate KeyTouched(x: Exec, account: Word, key: Word)
  {
    exists s :: s in Sites(x, x.self) && (Loads(s, account, key) || Stores(s, account, key))
  }

  /** The account whose storage is worked on, the one asked about, called or created, or the heir of a destruction. */
  predicate TouchesAccount(s: Site, account: Word)
  {
    || s.account == account
    || ((s.sort.BalanceOp? || s.sort.CodeOp? || s.sort.DestructOp?) && Top(s.step) == account)
    || (IsCallSort(s.sort) && Second(s.step) == account)
    || (s.sort.CreateOp? && s.step.made == account)
  }

  ghost predicate AccountTouched(x: Exec, account: Word)
  {
    account == x.self || exists s :: s in Sites(x, x.self) && TouchesAccount(s, account)
  }

  // ---------------------------------------------------------------- what the analyser records

  /** The analyser sees reads alone, and on the account it has booked. */
  predicate SeesKey(s: Site, account: Word, key: Word)
  {
    s.sort.LoadOp? && s.booked == account && Top(s.step) == key
  }

  /** It sees a call only with the execution it starts, and neither a creation nor a destruction. */
  predicate SeesAccount(s: Site, account: Word)
  {
    || (s.sort.LoadOp? && s.booked == account)
    || ((s.sort.BalanceOp? || s.sort.CodeOp?) && Top(s.step) == account)
    || (IsCallSort(s.sort) && s.step.inner.Some? && Second(s.step) == account)
  }

  ghost predicate KeySeen(sites: seq<Site>, account: Word, key: Word)
  {
    exists s :: s in sites && SeesKey(s, account, key)
  }

  ghost predicate AccountSeen(sites: seq<Site>, account: Word)
  {
    exists s :: s in sites && SeesAccount(s, account)
  }

  ghost predicate KeyEvent(es: seq<Event>, account: Word, key: Word)
  {
    exists v :: TouchStorage(account, key, v) in es
  }

  ghost predicate AccountEvent(es: seq<Event>, account: Word)
  {
    exists e :: e in es && Touches(e, account)
  }

  /** The events tell of the same keys and accounts as the sites. */
  ghost predicate Tell(es: seq<Event>, sites: seq<Site>)
  {
    && (forall a, k :: KeyEvent(es, a, k) <==> KeySeen(sites, a, k))
    && (forall a :: AccountEvent(es, a) <==> AccountSeen(sites, a))
  }

  lemma TellConcat(es: seq<Event>, sites: seq<Site>, es': seq<Event>, sites': seq<Site>)
    requires Tell(es, sites) && Tell(es', sites')
    ensures Tell(es + es', sites + sites')
  {
    forall a, k ensures KeyEvent(es + es', a, k) <==> KeySeen(sites + sites', a, k) {
      assert KeyEvent(es + es', a, k) <==> KeyEvent(es, a, k) || KeyEvent(es', a, k);
      assert KeySeen(sites + sites', a, k) <==> KeySeen(sites, a, k) || KeySeen(sites', a, k);
    }
    forall a ensures AccountEvent(es + es', a) <==> AccountSeen(sites + sites', a) {
      assert AccountEvent(es + es', a) <==> AccountEvent(es, a) || AccountEvent(es', a);
      assert AccountSeen(sites + sites', a) <==> AccountSeen(sites, a) || AccountSeen(sites', a);
    }
  }

  lemma TellNothing()
    ensures Tell([], [])
  {
  }

  /** What the analyser records for an operation, told by the execution alone. */
  function SiteEvents(s: Site): (r: seq<Event>)
    ensures |r| <= 1
  {
    match s.sort
    case LoadOp => [TouchStorage(s.booked, Top(s.step), FirstLeft(s.step))]
    case BalanceOp => [TouchBalance(Top(s.step), FirstLeft(s.step))]
    case CodeOp => [TouchCode(Top(s.step), Needed)]
    case BlockHashOp => [TouchBlock(Some(Top(s.step)))]
    case CallOp => Called(s.step, true)
    case CallCodeOp => Called(s.step, true)
    case DelegateOp => Called(s.step, false)
    case StaticOp => Called(s.step, false)
    case _ => []
  }

  function FirstLeft(s: Step): Option<Word>
  {
    if s.result.None? || s.result.value == [] then None else Some(s.result.value[0])
  }

  /** The code of the callee, or that it is needed, where a call starts an execution. */
  function Called(s: Step, known: bool): seq<Event>
  {
    if s.inner.None? then []
    else [TouchCode(Second(s), if known then Code.Known(s.inner.value.code) else Needed)]
  }

  function AllEvents(sites: seq<Site>): seq<Event>
  {
    if sites == [] then [] else AllEvents(sites[..|sites| - 1]) + SiteEvents(sites[|sites| - 1])
  }

  lemma AllEventsStep(sites: seq<Site>, s: Site)
    ensures AllEvents(sites + [s]) == AllEvents(sites) + SiteEvents(s)
  {
    hide SiteEvents;
    assert (sites + [s])[..|sites|] == sites;
  }

  lemma {:induction false} AllEventsConcat(a: seq<Site>, b: seq<Site>)
    ensures AllEvents(a + b) == AllEvents(a) + AllEvents(b)
  {
    hide SiteEvents, AllEvents;
    if b == [] {
      assert a + b == a;
      EventsOfNothing();
    } else {
      var n := |b| - 1;
      AllEventsConcat(a, b[..n]);
      LastApart(a, b);
      AllEventsStep(b[..n], b[n]);
      AllEventsStep(a + b[..n], b[n]);
    }
  }

  lemma LastApart(a: seq<Site>, b: seq<Site>)
    requires b != []
    ensures b == b[..|b| - 1] + [b[|b| - 1]] && a + b == a + b[..|b| - 1] + [b[|b| - 1]]
  {
  }

  lemma EventsOfNothing()
    ensures AllEvents([]) == []
  {
  }

  lemma EventsOfOne(s: Site)
    ensures AllEvents([s]) == SiteEvents(s) && AllEvents([]) == []
  {
    assert [s][..0] == [];
  }

  lemma PlainIsSite(kind: Kind, s: Site, pushed: seq<Word>)
    requires SameKind(kind, s.sort) && s.booked != "" && s.step.inner.None? && Written(s.step.stack)
    requires s.step.result == Some(pushed)
    requires s.sort.LoadOp? || s.sort.BalanceOp? || s.sort.CodeOp? || s.sort.BlockHashOp? ==> s.step.stack != []
    ensures PlainEvents(kind, Some(s.booked), s.step.stack, pushed) == SiteEvents(s)
  {
  }

  lemma CallIsSite(kind: Kind, s: Site)
    requires SameKind(kind, s.sort) && s.booked != "" && s.step.inner.Some? && Written(s.step.stack)
    requires IsCallSort(s.sort) || s.sort.CreateOp?
    requires IsCallSort(s.sort) ==> |s.step.stack| >= 2
    ensures CallEvents(kind, Some(s.booked), s.step.stack, TraceOf(s.step.inner.value)) == SiteEvents(s)
  {
  }

  /** The events of the trace are those of the operations of all nested executions, one by one and in order. */
  lemma {:induction false} EventsAreSites(x: Exec, booked: Word, n: nat)
    requires Valid(x) && Supported(x) && booked != "" && n <= |x.steps|
    ensures Events(Table, TraceOf(x), Some(booked), n) == AllEvents(SitesBefore(x, booked, n))
    decreases x, n, 1
  {
    hide Table, Opcode, OpEvents, SitesAt, AllEvents, Valid, Supported;
    if n == 0 {
      EventsOfNothing();
    } else {
      EventsAreSites(x, booked, n - 1);
      OpEventsAreSites(x, booked, n - 1);
      AllEventsConcat(SitesBefore(x, booked, n - 1), SitesAt(x, booked, n - 1));
    }
  }

  lemma {:induction false} OpEventsAreSites(x: Exec, booked: Word, i: nat)
    requires Valid(x) && Supported(x) && booked != "" && i < |x.steps|
    ensures OpEvents(Table, TraceOf(x), Some(booked), i) == AllEvents(SitesAt(x, booked, i))
    decreases x, i, 2
  {
    hide Table, Opcode, Valid, Supported, ValidStep, SupportedStep, TraceOf, StackAt, InfoAt, AllEvents, SiteEvents;
    var s, sort := x.steps[i], OperationAt(x, i).sort;
    var site := Site(x.self, booked, s, sort);
    StepOf(x, i);
    StepFollows(x, i);
    StepAcceptedExactly(x, i);
    StackIsRebuilt(x, i);
    InfoIsOperation(x, i);
    TakesEnough(x, i);
    EventsOfOne(site);
    var kind := InfoAt(Table, TraceOf(x), s.pc).value.kind;
    if s.inner.Some? {
      var y, inner := s.inner.value, BookedFor(sort, booked, s);
      CallIsSite(kind, site);
      assert InnerStorage(kind, Some(booked), s.stack) == Some(inner);
      EventsAreSites(y, inner, |y.steps|);
      AllEventsConcat([site], Sites(y, inner));
    } else {
      PlainIsSite(kind, site, s.result.value);
      assert SitesAt(x, booked, i) == [site] + [] == [site];
    }
  }

  lemma OneTells(s: Site)
    ensures Tell(SiteEvents(s), [s])
  {
    var es := SiteEvents(s);
    assert s in [s];
    assert es != [] ==> es == [es[0]] && es[0] in es;
    forall a, k ensures KeyEvent(es, a, k) <==> KeySeen([s], a, k) {
      assert KeyEvent(es, a, k) <==> SeesKey(s, a, k);
    }
    forall a ensures AccountEvent(es, a) <==> AccountSeen([s], a) {
      assert AccountEvent(es, a) <==> SeesAccount(s, a);
    }
  }

  lemma {:induction false} AllTell(sites: seq<Site>)
    ensures Tell(AllEvents(sites), sites)
  {
    hide Tell, SiteEvents;
    if sites == [] {
      TellNothing();
    } else {
      var n := |sites| - 1;
      AllTell(sites[..n]);
      OneTells(sites[n]);
      TellConcat(AllEvents(sites[..n]), sites[..n], SiteEvents(sites[n]), [sites[n]]);
      assert sites[..n] + [sites[n]] == sites;
    }
  }

  lemma OpcodeTakes(b: byte)
    ensures Opcode(b).Some? ==>
              var op := Opcode(b).value; var c := op.sort;
              && (c.LoadOp? || c.StoreOp? || c.BalanceOp? || c.CodeOp? || c.DestructOp? || c.BlockHashOp?
                  ==> op.takes >= 1)
              && (IsCallSort(c) ==> op.takes >= 2)
  {
  }

  /** Operations that name a word find it on the stack. */
  lemma TakesEnough(x: Exec, i: nat)
    requires i < |x.steps| && ValidStep(x, i)
    ensures var s, c := x.steps[i], OperationAt(x, i).sort;
            && (c.LoadOp? || c.StoreOp? || c.BalanceOp? || c.CodeOp? || c.DestructOp? || c.BlockHashOp? ==>
                |s.stack| >= 1 && Top(s) != "")
            && (IsCallSort(c) ==> |s.stack| >= 2 && Second(s) != "")
  {
    hide Opcode, Valid;
    OpcodeTakes(x.code[x.steps[i].pc]);
  }

  /** The analyser's record for the trace of an execution. */
  function Recorded(x: Exec): Footprint
  {
    RecordAll(Start(Some(x.self), x.code), Events(Table, TraceOf(x), Some(x.self), |x.steps|))
  }

  /** What is recorded is what is seen, and the account the execution starts on. */
  lemma RecordedIsSeen(x: Exec, account: Word, key: Word)
    requires Valid(x) && Supported(x)
    ensures HasStorage(Recorded(x), account, key) <==> KeySeen(Sites(x, x.self), account, key)
    ensures account in Recorded(x).accounts <==> account == x.self || AccountSeen(Sites(x, x.self), account)
  {
    var f, es := Start(Some(x.self), x.code), Events(Table, TraceOf(x), Some(x.self), |x.steps|);
    EventsAreSites(x, x.self, |x.steps|);
    AllTell(Sites(x, x.self));
    RecordedKeys(f, es, account, key);
    RecordedAccounts(f, es, account);
    assert KeyEvent(es, account, key) <==> KeySeen(Sites(x, x.self), account, key);
    assert AccountEvent(es, account) <==> AccountSeen(Sites(x, x.self), account);
  }

  /** The block numbers that the operations ask for, in order. */
  function AskedBlocks(sites: seq<Site>): seq<Option<Word>>
  {
    if sites == [] then []
    else
      var last := sites[|sites| - 1];
      AskedBlocks(sites[..|sites| - 1]) + (if last.sort.BlockHashOp? then [Some(Top(last.step))] else [])
  }

  lemma {:induction false} BlocksOfSites(sites: seq<Site>)
    ensures BlockNumbers(AllEvents(sites)) == AskedBlocks(sites)
  {
    if sites != [] {
      hide SiteEvents, BlockNumbers;
      var n := |sites| - 1;
      BlocksOfSites(sites[..n]);
      BlockNumbersConcat(AllEvents(sites[..n]), SiteEvents(sites[n]));
      BlockOfSite(sites[n]);
    } else {
      assert BlockNumbers([]) == [];
    }
  }

  lemma BlockOfSite(s: Site)
    ensures var es := SiteEvents(s);
            if s.sort.BlockHashOp? then es == [TouchBlock(Some(Top(s.step)))] else es == [] || !es[0].TouchBlock?
  {
  }

  lemma BlockNumbersConcat(es: seq<Event>, more: seq<Event>)
    requires |more| <= 1
    ensures BlockNumbers(es + more)
            == BlockNumbers(es) + (if |more| == 1 && more[0].TouchBlock? then [more[0].number] else [])
  {
    if more == [] {
      assert es + more == es;
    } else {
      assert (es + more)[..|es|] == es;
    }
  }

  /** The record holds exactly the block numbers that BLOCKHASH is asked for, repeated or not, in order. */
  lemma BlocksExactly(x: Exec)
    requires Valid(x) && Supported(x)
    ensures Recorded(x).blocks == AskedBlocks(Sites(x, x.self))
  {
    assert x.self != "";
    hide Valid, Supported, Sites;
    EventsAreSites(x, x.self, |x.steps|);
    SitesAreAll(x, x.self);
    RecordedBlocks(Start(Some(x.self), x.code), AllEvents(Sites(x, x.self)));
    BlocksOfSites(Sites(x, x.self));
  }

  /**
    The value recorded for a slot, a balance or a code is that of the last operation that is recorded for it; an account
    that no operation is recorded for has its own code if the execution starts on it, and no balance.
   */
  lemma LastValueIsRecorded(x: Exec, e: Event, i: nat)
    requires Valid(x) && Supported(x) && !e.TouchBlock?
    ensures var es := AllEvents(Sites(x, x.self));
            && (i < |es| && SameSlot(es[i], e) && NoneSince(es, i + 1, e) ==> Noted(Recorded(x), e) == Some(es[i]))
            && (NoneSince(es, 0, e) ==>
                  Noted(Recorded(x), e)
                  == if e.TouchCode? && e.account == x.self then Some(TouchCode(x.self, Code.Known(x.code)))
                     else if e.TouchBalance? then Some(TouchBalance(e.account, None))
                     else None)
  {
    assert x.self != "";
    hide Valid, Supported, Sites, AllEvents, SameSlot, NoneSince;
    var f, es := Start(Some(x.self), x.code), AllEvents(Sites(x, x.self));
    EventsAreSites(x, x.self, |x.steps|);
    SitesAreAll(x, x.self);
    if i < |es| && SameSlot(es[i], e) && NoneSince(es, i + 1, e) {
      LastIsNoted(f, es, i, e);
    }
    if NoneSince(es, 0, e) {
      NotedStays(f, es, e);
    }
  }

  // ---------------------------------------------------------------- when the recorded keys are the touched ones

  ghost predicate KeysExact(x: Exec)
  {
    forall account, key :: HasStorage(Recorded(x), account, key) <==> KeyTouched(x, account, key)
  }

  /** A slot that is written is also read; a read that is booked on another account is seen, and sees, nevertheless. */
  ghost predicate Covered(x: Exec, s: Site)
  {
    var sites := Sites(x, x.self);
    && (s.sort.StoreOp? ==> KeySeen(sites, s.account, Top(s.step)))
    && (s.sort.LoadOp? && s.booked != s.account ==>
          KeySeen(sites, s.account, Top(s.step)) && KeyTouched(x, s.booked, Top(s.step)))
  }

  /**
    The recorded storage keys are those the execution touches if and only if every write and misbooked read is covered.
   */
  lemma KeysExactly(x: Exec)
    requires Valid(x) && Supported(x)
    ensures KeysExact(x) <==> forall s :: s in Sites(x, x.self) ==> Covered(x, s)
  {
    hide Valid, Supported, Recorded, Sites, HasStorage;
    var sites := Sites(x, x.self);
    forall account, key ensures HasStorage(Recorded(x), account, key) <==> KeySeen(sites, account, key) {
      RecordedIsSeen(x, account, key);
    }
    if KeysExact(x) {
      forall s | s in sites ensures Covered(x, s) {
        var key := Top(s.step);
        assert s.sort.StoreOp? ==> Stores(s, s.account, key) && KeyTouched(x, s.account, key);
        assert s.sort.LoadOp? ==> Loads(s, s.account, key) && KeyTouched(x, s.account, key);
        assert s.sort.LoadOp? ==> SeesKey(s, s.booked, key) && KeySeen(sites, s.booked, key);
      }
    } else {
      var account, key :| HasStorage(Recorded(x), account, key) != KeyTouched(x, account, key);
      UncoveredSite(x, account, key);
    }
  }

  lemma UncoveredSite(x: Exec, account: Word, key: Word)
    requires KeySeen(Sites(x, x.self), account, key) != KeyTouched(x, account, key)
    ensures exists s :: s in Sites(x, x.self) && !Covered(x, s)
  {
    hide Sites;
    var sites := Sites(x, x.self);
    if KeySeen(sites, account, key) {
      var s :| s in sites && SeesKey(s, account, key);
      assert !Loads(s, account, key);
      assert !Covered(x, s);
    } else {
      var s :| s in sites && (Loads(s, account, key) || Stores(s, account, key));
      assert !SeesKey(s, account, key);
      assert !Covered(x, s);
    }
  }

  /** No code runs to create an account. */
  ghost predicate NoConstructors(x: Exec)
  {
    forall s :: s in Sites(x, x.self) ==> !(s.sort.CreateOp? && s.step.inner.Some?)
  }

  lemma {:induction false} BookedIsAccount(x: Exec, n: nat)
    requires Valid(x) && n <= |x.steps|
    requires forall s :: s in SitesBefore(x, x.self, n) ==> !(s.sort.CreateOp? && s.step.inner.Some?)
    ensures forall s :: s in SitesBefore(x, x.self, n) ==> s.booked == s.account
    decreases x, n
  {
    hide Opcode;
    if n > 0 {
      var i := n - 1;
      var s, sort := x.steps[i], OperationAt(x, i).sort;
      var before, here := SitesBefore(x, x.self, i), SitesAt(x, x.self, i);
      assert SitesBefore(x, x.self, n) == before + here;
      assert forall t :: t in before || t in here ==> t in SitesBefore(x, x.self, n);
      BookedIsAccount(x, i);
      assert ValidStep(x, i) && here[0] in here;
      if s.inner.Some? {
        var y := s.inner.value;
        var nested := Sites(y, BookedFor(sort, x.self, s));
        assert here == [Site(x.self, x.self, s, sort)] + nested;
        assert y.self == BookedFor(sort, x.self, s);
        assert forall t :: t in nested ==> t in here;
        BookedIsAccount(y, |y.steps|);
      }
    }
  }

  /**
    Where no constructor runs, the recorded storage keys are those touched if and only if every key written is also
    read.
   */
  lemma WritesMustBeRead(x: Exec)
    requires Valid(x) && Supported(x) && NoConstructors(x)
    ensures KeysExact(x) <==>
              forall s :: s in Sites(x, x.self) && s.sort.StoreOp? ==>
                exists t :: t in Sites(x, x.self) && Loads(t, s.account, Top(s.step))
  {
    hide Valid, Supported, Recorded, HasStorage;
    var sites := Sites(x, x.self);
    BookedIsAccount(x, |x.steps|);
    KeysExactly(x);
    assert forall s :: s in sites ==> s.booked == s.account;
    forall a, k ensures KeySeen(sites, a, k) <==> exists t :: t in sites && Loads(t, a, k) {
      assert forall t :: t in sites ==> (SeesKey(t, a, k) <==> Loads(t, a, k));
    }
  }

  // ---------------------------------------------------------------- when the recorded accounts are the touched ones

  ghost predicate AccountsExact(x: Exec)
  {
    forall account :: account in Recorded(x).accounts <==> AccountTouched(x, account)
  }

  ghost predicate Known(x: Exec, account: Word)
  {
    account == x.self || AccountSeen(Sites(x, x.self), account)
  }

  /** The accounts the analyser does not see are recorded for another reason. */
  ghost predicate KnownElsewhere(x: Exec, s: Site)
  {
    && (s.sort.DestructOp? ==> Known(x, Top(s.step)))
    && (IsCallSort(s.sort) && s.step.inner.None? ==> Known(x, Second(s.step)))
    && (s.sort.CreateOp? ==> Known(x, s.step.made))
  }

  /** Execution comes to an account by a call or a creation, booking by a call. */
  ghost predicate ComesFrom(sites: seq<Site>, start: Word, booked: Word, s: Site)
  {
    && (s.account == start || exists c :: c in sites && Enters(c, s.account))
    && (s.booked == booked || exists c :: c in sites && IsCallSort(c.sort) && SeesAccount(c, s.booked))
  }

  predicate Enters(c: Site, account: Word)
  {
    (IsCallSort(c.sort) && SeesAccount(c, account)) || (c.sort.CreateOp? && c.step.made == account)
  }

  lemma {:induction false} AllCome(x: Exec, booked: Word, n: nat)
    requires Valid(x) && n <= |x.steps|
    ensures forall s :: s in SitesBefore(x, booked, n) ==> ComesFrom(SitesBefore(x, booked, n), x.self, booked, s)
    decreases x, n
  {
    hide Opcode;
    if n > 0 {
      var i := n - 1;
      var s, sort := x.steps[i], OperationAt(x, i).sort;
      var all, before, here := SitesBefore(x, booked, n), SitesBefore(x, booked, i), SitesAt(x, booked, i);
      assert all == before + here;
      AllCome(x, booked, i);
      assert ValidStep(x, i);
      forall t | t in before ensures ComesFrom(all, x.self, booked, t) {
        ComesFromMore(before, all, x.self, booked, t);
      }
      var site := Site(x.self, booked, s, sort);
      assert here[0] == site;
      if s.inner.Some? {
        var y, inner := s.inner.value, BookedFor(sort, booked, s);
        var nested := Sites(y, inner);
        assert here == [site] + nested;
        AllCome(y, inner, |y.steps|);
        SitesAreAll(y, inner);
        assert site in all;
        forall t | t in nested ensures ComesFrom(all, x.self, booked, t) {
          ComesFromMore(nested, all, y.self, inner, t);
          assert y.self == x.self || Enters(site, y.self);
          assert inner == booked || (IsCallSort(sort) && SeesAccount(site, inner));
        }
      }
    }
  }

  lemma ComesFromMore(some: seq<Site>, all: seq<Site>, start: Word, booked: Word, s: Site)
    requires ComesFrom(some, start, booked, s) && forall t :: t in some ==> t in all
    ensures ComesFrom(all, start, booked, s)
  {
  }

  /** No account is recorded that the execution does not touch. */
  lemma NoAccountIsInvented(x: Exec, account: Word)
    requires Valid(x) && Supported(x) && account in Recorded(x).accounts
    ensures AccountTouched(x, account)
  {
    hide Valid, Supported, Recorded, Sites, SitesBefore;
    var sites := Sites(x, x.self);
    RecordedIsSeen(x, account, "");
    assert sites == SitesBefore(x, x.self, |x.steps|) by { SitesAreAll(x, x.self); }
    if account != x.self {
      var s :| s in sites && SeesAccount(s, account);
      AllCome(x, x.self, |x.steps|);
      assert ComesFrom(sites, x.self, x.self, s);
      if !TouchesAccount(s, account) {
        var c :| c in sites && IsCallSort(c.sort) && SeesAccount(c, account);
        assert TouchesAccount(c, account);
      }
    }
  }

  lemma SitesAreAll(x: Exec, booked: Word)
    ensures Sites(x, booked) == SitesBefore(x, booked, |x.steps|)
  {
  }

  /**
    The recorded accounts are those the execution touches if and only if the heir of every destruction, the callee of
    every call that starts no execution, and every account created are recorded for another reason.
   */
  lemma AccountsExactly(x: Exec)
    requires Valid(x) && Supported(x)
    ensures AccountsExact(x) <==> forall s :: s in Sites(x, x.self) ==> KnownElsewhere(x, s)
  {
    hide Valid, Supported, Recorded, Sites;
    var sites := Sites(x, x.self);
    forall account ensures account in Recorded(x).accounts <==> Known(x, account) {
      RecordedIsSeen(x, account, "");
    }
    if AccountsExact(x) {
      forall s | s in sites ensures KnownElsewhere(x, s) {
        assert s.sort.DestructOp? ==> TouchesAccount(s, Top(s.step)) && AccountTouched(x, Top(s.step));
        assert IsCallSort(s.sort) ==> TouchesAccount(s, Second(s.step)) && AccountTouched(x, Second(s.step));
        assert s.sort.CreateOp? ==> TouchesAccount(s, s.step.made) && AccountTouched(x, s.step.made);
      }
    } else {
      var account :| (account in Recorded(x).accounts) != AccountTouched(x, account);
      if account in Recorded(x).accounts {
        NoAccountIsInvented(x, account);
      }
      UnknownSite(x, account);
    }
  }

  lemma UnknownSite(x: Exec, account: Word)
    requires Valid(x) && AccountTouched(x, account) && !Known(x, account)
    ensures exists s :: s in Sites(x, x.self) && !KnownElsewhere(x, s)
  {
    hide Valid, Sites, SitesBefore;
    var sites := Sites(x, x.self);
    SitesAreAll(x, x.self);
    AllCome(x, x.self, |x.steps|);
    var s :| s in sites && TouchesAccount(s, account);
    assert !SeesAccount(s, account);
    if s.account == account {
      assert ComesFrom(sites, x.self, x.self, s);
      var c :| c in sites && Enters(c, account);
      assert !SeesAccount(c, account);
      assert !KnownElsewhere(x, c);
    } else {
      assert !KnownElsewhere(x, s);
    }
  }

  // ---------------------------------------------------------------- two executions that are not recorded as they are

  function Plain(pc: nat, stack: seq<Word>, result: seq<Word>): Step
  {
    Step(pc, stack, Some(result), None, "")
  }

  /** PUSH1, PUSH1, SSTORE: writes a value to a slot of the account `a`. */
  function Storing(a: Word, key: Word, value: Word): Exec
  {
    Exec(a, [0x60, 0x01, 0x60, 0x00, 0x55],
         [Plain(0, [], [value]), Plain(2, [value], [key]), Plain(4, [value, key], [])])
  }

  lemma OpcodesUsed()
    ensures Opcode(0x60) == Some(Operation(OtherOp, 0, 1)) && Opcode(0x54) == Some(Operation(LoadOp, 1, 1))
    ensures Opcode(0x55) == Some(Operation(StoreOp, 2, 0)) && Opcode(0xf0) == Some(Operation(CreateOp, 3, 1))
  {
  }

  /** A step that starts no execution adds one site. */
  lemma OneSite(x: Exec, booked: Word, i: nat)
    requires i < |x.steps| && x.steps[i].inner.None?
    ensures SitesBefore(x, booked, i + 1)
            == SitesBefore(x, booked, i) + [Site(x.self, booked, x.steps[i], OperationAt(x, i).sort)]
  {
    assert SitesAt(x, booked, i) == [Site(x.self, booked, x.steps[i], OperationAt(x, i).sort)];
  }

  lemma StoringIsValid(a: Word, key: Word, value: Word)
    requires a != "" && key != "" && value != ""
    ensures var x := Storing(a, key, value);
            && Valid(x) && Supported(x)
            && Sites(x, a)
                == [Site(a, a, x.steps[0], OtherOp), Site(a, a, x.steps[1], OtherOp), Site(a, a, x.steps[2], StoreOp)]
  {
    hide Opcode;
    var x := Storing(a, key, value);
    OpcodesUsed();
    assert StackAfter(x, 0) == [value] && StackAfter(x, 1) == [value, key];
    assert ValidStep(x, 0) && ValidStep(x, 1) && ValidStep(x, 2);
    OneSite(x, a, 0);
    OneSite(x, a, 1);
    OneSite(x, a, 2);
  }

  /** A slot that is written and never read is touched, and the record does not have it. */
  lemma StoreIsMissed(a: Word, key: Word, value: Word)
    requires a != "" && key != "" && value != ""
    ensures var x := Storing(a, key, value);
            Valid(x) && Supported(x) && KeyTouched(x, a, key) && !HasStorage(Recorded(x), a, key)
  {
    hide Valid, Supported, Recorded, HasStorage, Sites;
    var x := Storing(a, key, value);
    StoringIsValid(a, key, value);
    RecordedIsSeen(x, a, key);
    var sites := Sites(x, a);
    assert sites[2] in sites && Stores(sites[2], a, key);
  }

  /** PUSH1 and SLOAD: the constructor of the account `made` reads a slot. */
  function Constructor(made: Word, key: Word, value: Word): Exec
  {
    Exec(made, [0x60, 0x00, 0x54], [Plain(0, [], [key]), Plain(2, [key], [value])])
  }

  /** Three times PUSH1, then CREATE. */
  function Creating(a: Word, made: Word, key: Word, value: Word): Exec
  {
    Exec(a, [0x60, 0x00, 0x60, 0x00, 0x60, 0x00, 0xf0],
         [Plain(0, [], [key]), Plain(2, [key], [key]), Plain(4, [key, key], [key]),
          Step(6, [key, key, key], Some([made]), Some(Constructor(made, key, value)), made)])
  }

  lemma ConstructorIsValid(a: Word, made: Word, key: Word, value: Word)
    requires made != "" && key != "" && value != ""
    ensures var x := Constructor(made, key, value);
            && Valid(x) && Supported(x)
            && Sites(x, a) == [Site(made, a, x.steps[0], OtherOp), Site(made, a, x.steps[1], LoadOp)]
  {
    hide Opcode;
    var x := Constructor(made, key, value);
    OpcodesUsed();
    assert StackAfter(x, 0) == [key];
    assert ValidStep(x, 0) && ValidStep(x, 1);
    OneSite(x, a, 0);
    OneSite(x, a, 1);
  }

  /** A PUSH1 that finds what the step before has left. */
  lemma PushIsValid(x: Exec, i: nat, stack: seq<Word>, w: Word)
    requires i < |x.steps| && x.steps[i].stack == stack && x.steps[i].result == Some([w]) && x.steps[i].inner.None?
    requires x.steps[i].pc < |x.code| && x.code[x.steps[i].pc] == 0x60 && Written(stack) && w != ""
    requires stack == (if i == 0 then [] else StackAfter(x, i - 1)) && (i > 0 ==> x.steps[i - 1].result.Some?)
    ensures ValidStep(x, i) && SupportedStep(x, i) && StackAfter(x, i) == stack + [w]
  {
    hide Opcode;
    OpcodesUsed();
    assert Popped(stack, 0) == stack;
  }

  lemma CreateIsValid(a: Word, made: Word, key: Word, value: Word)
    requires a != "" && made != "" && key != "" && value != ""
    requires StackAfter(Creating(a, made, key, value), 2) == [key, key, key]
    ensures ValidStep(Creating(a, made, key, value), 3) && SupportedStep(Creating(a, made, key, value), 3)
  {
    hide Opcode, Constructor, StackAfter, Valid, Supported;
    OpcodesUsed();
    ConstructorIsValid(a, made, key, value);
    ConstructorIsMade(made, key, value);
  }

  lemma FourSteps(x: Exec)
    requires |x.steps| == 4 && x.self != "" && ValidStep(x, 0) && ValidStep(x, 1) && ValidStep(x, 2) && ValidStep(x, 3)
    requires SupportedStep(x, 0) && SupportedStep(x, 1) && SupportedStep(x, 2) && SupportedStep(x, 3)
    ensures Valid(x) && Supported(x)
  {
    hide ValidStep, SupportedStep;
  }

  lemma CreatingIsValid(a: Word, made: Word, key: Word, value: Word)
    requires a != "" && made != "" && key != "" && value != ""
    ensures Valid(Creating(a, made, key, value)) && Supported(Creating(a, made, key, value))
  {
    hide Opcode, Constructor, Valid, Supported, ValidStep, SupportedStep, StackAfter;
    var x := Creating(a, made, key, value);
    PushIsValid(x, 0, [], key);
    PushIsValid(x, 1, [key], key);
    PushIsValid(x, 2, [key, key], key);
    CreateIsValid(a, made, key, value);
    FourSteps(x);
  }

  lemma CreatingSites(a: Word, made: Word, key: Word, value: Word)
    ensures var x := Creating(a, made, key, value);
            Sites(x, a) == [Site(a, a, x.steps[0], OtherOp), Site(a, a, x.steps[1], OtherOp),
                            Site(a, a, x.steps[2], OtherOp), Site(a, a, x.steps[3], CreateOp)]
                           + Sites(Constructor(made, key, value), a)
  {
    hide Opcode, Constructor;
    var x, y := Creating(a, made, key, value), Constructor(made, key, value);
    OpcodesUsed();
    OneSite(x, a, 0);
    OneSite(x, a, 1);
    OneSite(x, a, 2);
    assert SitesAt(x, a, 3) == [Site(a, a, x.steps[3], CreateOp)] + Sites(y, a);
  }

  lemma ConstructorIsMade(made: Word, key: Word, value: Word)
    ensures Constructor(made, key, value).self == made
  {
  }

  /** The account that is created is touched, and the record does not have it. */
  lemma CreatedAccountIsMissed(a: Word, made: Word, key: Word, value: Word)
    requires a != "" && made != "" && key != "" && value != "" && a != made
    ensures var x := Creating(a, made, key, value);
            Valid(x) && Supported(x) && AccountTouched(x, made) && made !in Recorded(x).accounts
  {
    hide Valid, Supported, Recorded, Sites;
    var x, y := Creating(a, made, key, value), Constructor(made, key, value);
    CreatingIsValid(a, made, key, value);
    CreatingSites(a, made, key, value);
    ConstructorIsValid(a, made, key, value);
    RecordedIsSeen(x, made, key);
    var sites := Sites(x, a);
    assert sites[3] in sites && TouchesAccount(sites[3], made);
    assert sites == [sites[0], sites[1], sites[2], sites[3], sites[4], sites[5]];
    assert !SeesAccount(sites[4], made) && !SeesAccount(sites[5], made);
  }

  /** A constructor's read is recorded for the creator, whose slot is not touched; the new account's slot is missed. */
  lemma CreationIsMisattributed(a: Word, made: Word, key: Word, value: Word)
    requires a != "" && made != "" && key != "" && value != "" && a != made
    ensures var x := Creating(a, made, key, value);
            && Valid(x) && Supported(x)
            && HasStorage(Recorded(x), a, key) && !KeyTouched(x, a, key)
            && KeyTouched(x, made, key) && !HasStorage(Recorded(x), made, key)
  {
    hide Valid, Supported, Recorded, HasStorage, Sites;
    var x, y := Creating(a, made, key, value), Constructor(made, key, value);
    CreatingIsValid(a, made, key, value);
    CreatingSites(a, made, key, value);
    ConstructorIsValid(a, made, key, value);
    RecordedIsSeen(x, a, key);
    RecordedIsSeen(x, made, key);
    var sites := Sites(x, a);
    assert sites[5] == Site(made, a, y.steps[1], LoadOp) && sites[5] in sites;
    assert SeesKey(sites[5], a, key) && Loads(sites[5], made, key);
    forall s | s in sites ensures !Loads(s, a, key) && !Stores(s, a, key) && !SeesKey(s, made, key) {
      var i :| 0 <= i < |sites| && sites[i] == s;
      assert i < 4 || s == Sites(y, a)[i - 4];
    }
  }
}
