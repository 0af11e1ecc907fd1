/**
  The trace analyser: it rebuilds the EVM stack from what each step pushed, and collects the accounts and storage keys
  a transaction touches, over all nested calls.
 */
module EvmTrace {
  import opened Bytes

  type Word = string

  /** One executed operation: `ex` is what it pushed, absent where the client reports no effect; `sub` an inner call. */
  datatype Op = Op(pc: nat, ex: Option<seq<Word>>, sub: Option<Trace>)

  datatype Trace = Trace(code: seq<byte>, ops: seq<Op>)

  datatype Kind =
    | Create | Call | CallCode | DelegateCall | StaticCall
    | BlockHash | SLoad | Balance | ExtCode
    | Plain

  /** An operation of the table: how many words it takes off the stack and how many it puts there. */
  datatype Info = Info(kind: Kind, del: nat, add: nat)

  /** A table of operations; `None` for a byte it does not list. Nothing below depends on which one it is. */
  type Codes = byte -> Option<Info>

  /** The analyser's table. */
  function Table(b: byte): Option<Info>
  {
    if b == 0x00 || b == 0x5b then Some(Info(Plain, 0, 0))
    else if b in {0x08, 0x09} then Some(Info(Plain, 3, 1))
    else if b in {0x15, 0x19} then Some(Info(Plain, 1, 1))
    else if 0x01 <= b <= 0x0b || 0x10 <= b <= 0x1d || b == 0x20 then Some(Info(Plain, 2, 1))
    else if b in {0x30, 0x32, 0x33, 0x34, 0x36, 0x38, 0x3a, 0x3d} then Some(Info(Plain, 0, 1))
    else if b == 0x31 then Some(Info(Balance, 1, 1))
    else if b in {0x35, 0x51} then Some(Info(Plain, 1, 1))
    else if b in {0x37, 0x39, 0x3e} then Some(Info(Plain, 3, 0))
    else if b in {0x3b, 0x3f} then Some(Info(ExtCode, 1, 1))
    else if b == 0x3c then Some(Info(ExtCode, 4, 0))
    else if b == 0x40 then Some(Info(BlockHash, 1, 1))
    else if 0x41 <= b <= 0x45 || b in {0x58, 0x59, 0x5a} then Some(Info(Plain, 0, 1))
    else if b in {0x50, 0x56, 0xff} then Some(Info(Plain, 1, 0))
    else if b in {0x52, 0x53, 0x55, 0x57, 0xf3, 0xfd} then Some(Info(Plain, 2, 0))
    else if b == 0x54 then Some(Info(SLoad, 1, 1))
    else if 0x60 <= b <= 0x7f then Some(Info(Plain, 0, 1))
    else if 0x80 <= b <= 0x8f then Some(Info(Plain, b - 0x7f, b - 0x7e))
    else if 0x90 <= b <= 0x9f then Some(Info(Plain, b - 0x8e, b - 0x8e))
    else if 0xa0 <= b <= 0xa4 then Some(Info(Plain, b - 0x9e, 0))
    else if b == 0xf0 then Some(Info(Create, 3, 1))
    else if b == 0xf1 then Some(Info(Call, 7, 1))
    else if b == 0xf2 then Some(Info(CallCode, 7, 1))
    else if b == 0xf4 then Some(Info(DelegateCall, 6, 1))
    else if b == 0xfa then Some(Info(StaticCall, 6, 1))
    else None
  }

  function InfoAt(codes: Codes, t: Trace, pc: nat): Option<Info>
  {
    if pc < |t.code| then codes(t.code[pc]) else None
  }

  /** A call into another account's code, as the analyser records it: the code itself, or that it is needed. */
  datatype Code = Known(code: seq<byte>) | Needed

  datatype Account = Account(code: Option<Code>, balance: Option<Word>, storage: map<Word, Option<Word>>)

  const EMPTY := Account(None, None, map[])

  datatype Footprint = Footprint(blocks: seq<Option<Word>>, accounts: map<Word, Account>)

  // ---------------------------------------------------------------- words that may be missing

  /** The word `n` places from the top, undefined below the bottom. */
  function FromTop(stack: seq<Word>, n: nat): Option<Word>
  {
    if n < |stack| then Some(stack[|stack| - 1 - n]) else None
  }

  /** A word as a property name. */
  function Name(w: Option<Word>): Word
  {
    if w.None? then "undefined" else w.value
  }

  /** An undefined or empty account stands for the storage account. */
  function AccountName(a: Option<Word>, storageAccount: Option<Word>): Word
  {
    if a.None? || a.value == "" then Name(storageAccount) else a.value
  }

  function First(pushed: seq<Word>): Option<Word>
  {
    if pushed == [] then None else Some(pushed[0])
  }

  function Popped(stack: seq<Word>, n: nat): seq<Word>
  {
    if n <= |stack| then stack[..|stack| - n] else []
  }

  // ---------------------------------------------------------------- what a trace touches

  datatype Event =
    | TouchBlock(number: Option<Word>)
    | TouchStorage(account: Word, key: Word, value: Option<Word>)
    | TouchBalance(account: Word, value: Option<Word>)
    | TouchCode(account: Word, code: Code)

  predicate IsCall(k: Kind)
  {
    k in {Call, CallCode, DelegateCall, StaticCall}
  }

  /** Does the analyser accept the trace? Every operation is listed, pushes what it should, and calls by a call. */
  predicate Accepted(codes: Codes, t: Trace)
    decreases t, 1
  {
    forall i :: 0 <= i < |t.ops| ==> AcceptedOp(codes, t, i)
  }

  predicate AcceptedOp(codes: Codes, t: Trace, i: nat)
    requires i < |t.ops|
    decreases t, 0
  {
    var op := t.ops[i];
    var info := InfoAt(codes, t, op.pc);
    && info.Some?
    && (op.sub.Some? ==> (IsCall(info.value.kind) || info.value.kind.Create?) && Accepted(codes, op.sub.value))
    && op.ex.Some? && |op.ex.value| == info.value.add
  }

  /** The stack before operation `i`. */
  function StackAt(codes: Codes, t: Trace, i: nat): seq<Word>
    requires i <= |t.ops|
  {
    if i == 0 then []
    else
      var op := t.ops[i - 1];
      var info := InfoAt(codes, t, op.pc);
      Popped(StackAt(codes, t, i - 1), if info.Some? then info.value.del else 0)
          + (if op.ex.Some? then op.ex.value else [])
  }

  /** The account whose storage an inner call works on, by the analyser's rule. */
  function InnerStorage(kind: Kind, storageAccount: Option<Word>, stack: seq<Word>): Option<Word>
  {
    if kind.Call? || kind.StaticCall? then FromTop(stack, 1) else storageAccount
  }

  function CallEvents(kind: Kind, sa: Option<Word>, stack: seq<Word>, sub: Trace): seq<Event>
  {
    if kind.Call? || kind.CallCode? then [TouchCode(AccountName(FromTop(stack, 1), sa), Known(sub.code))]
    else if kind.DelegateCall? || kind.StaticCall? then [TouchCode(AccountName(FromTop(stack, 1), sa), Needed)]
    else []
  }

  function PlainEvents(kind: Kind, sa: Option<Word>, stack: seq<Word>, pushed: seq<Word>): seq<Event>
  {
    match kind
    case BlockHash => [TouchBlock(FromTop(stack, 0))]
    case SLoad => [TouchStorage(AccountName(None, sa), Name(FromTop(stack, 0)), First(pushed))]
    case Balance => [TouchBalance(AccountName(FromTop(stack, 0), sa), First(pushed))]
    case ExtCode => [TouchCode(AccountName(FromTop(stack, 0), sa), Needed)]
    case _ => []
  }

  /** What the first `n` operations touch, in the order of execution; meant for accepted traces. */
  function Events(codes: Codes, t: Trace, sa: Option<Word>, n: nat): seq<Event>
    requires n <= |t.ops|
    decreases t, n, 1
  {
    if n == 0 then [] else Events(codes, t, sa, n - 1) + OpEvents(codes, t, sa, n - 1)
  }

  function OpEvents(codes: Codes, t: Trace, sa: Option<Word>, i: nat): seq<Event>
    requires i < |t.ops|
    decreases t, i, 2
  {
    if !AcceptedOp(codes, t, i) then []
    else
      var op, kind, stack := t.ops[i], InfoAt(codes, t, t.ops[i].pc).value.kind, StackAt(codes, t, i);
      if op.sub.Some? then
        var sub := op.sub.value;
        CallEvents(kind, sa, stack, sub) + Events(codes, sub, InnerStorage(kind, sa, stack), |sub.ops|)
      else
        PlainEvents(kind, sa, stack, op.ex.value)
  }

  // ---------------------------------------------------------------- the record

  function AccountOf(f: Footprint, name: Word): Account
  {
    if name in f.accounts then f.accounts[name] else EMPTY
  }

  function Record(f: Footprint, e: Event): Footprint
  {
    match e
    case TouchBlock(n) => f.(blocks := f.blocks + [n])
    case TouchStorage(a, k, v) =>
      f.(accounts := f.accounts[a := AccountOf(f, a).(storage := AccountOf(f, a).storage[k := v])])
    case TouchBalance(a, v) => f.(accounts := f.accounts[a := AccountOf(f, a).(balance := v)])
    case TouchCode(a, c) => f.(accounts := f.accounts[a := AccountOf(f, a).(code := Some(c))])
  }

  function RecordAll(f: Footprint, es: seq<Event>): Footprint
  {
    if es == [] then f else Record(RecordAll(f, es[..|es| - 1]), es[|es| - 1])
  }

  lemma {:induction false} RecordAllSplit(f: Footprint, a: seq<Event>, b: seq<Event>)
    ensures RecordAll(f, a + b) == RecordAll(RecordAll(f, a), b)
  {
    if b == [] {
      assert a + b == a;
    } else {
      RecordAllSplit(f, a, b[..|b| - 1]);
      assert (a + b)[..|a + b| - 1] == a + b[..|b| - 1];
    }
  }

  /** The record that all nested analyses share. */
  class Result {
    var blocks: seq<Option<Word>>
    var accounts: map<Word, Account>

    ghost function Value(): Footprint
      reads this
    {
      Footprint(blocks, accounts)
    }

    constructor (storageAccount: Option<Word>, code: seq<byte>)
      ensures Value() == Start(storageAccount, code)
    {
      blocks, accounts := [], map[Name(storageAccount) := Account(Some(Known(code)), None, map[])];
    }

    method SetStorage(name: Word, key: Word, value: Option<Word>)
      modifies this`accounts
      ensures Value() == Record(old(Value()), TouchStorage(name, key, value))
    {
      var a := if name in accounts then accounts[name] else EMPTY;
      accounts := accounts[name := a.(storage := a.storage[key := value])];
    }

    method SetBalance(name: Word, value: Option<Word>)
      modifies this`accounts
      ensures Value() == Record(old(Value()), TouchBalance(name, value))
    {
      var a := if name in accounts then accounts[name] else EMPTY;
      accounts := accounts[name := a.(balance := value)];
    }

    method SetCode(name: Word, code: Code)
      modifies this`accounts
      ensures Value() == Record(old(Value()), TouchCode(name, code))
    {
      var a := if name in accounts then accounts[name] else EMPTY;
      accounts := accounts[name := a.(code := Some(code))];
    }
  }

  function Start(storageAccount: Option<Word>, code: seq<byte>): Footprint
  {
    Footprint([], map[Name(storageAccount) := Account(Some(Known(code)), None, map[])])
  }

  // ---------------------------------------------------------------- the analyser

  /** Adds what `t` touches to `result`; not `ok` where the source throws. */
  method Analyse(codes: Codes, t: Trace, storageAccount: Option<Word>, result: Result) returns (ok: bool)
    modifies result
    ensures ok <==> Accepted(codes, t)
    ensures ok ==> result.Value() == RecordAll(old(result.Value()), Events(codes, t, storageAccount, |t.ops|))
    decreases t, 2
  {
    hide Accepted, AcceptedOp, Events, OpEvents, StackAt, RecordAll;
    AcceptedStarts(codes, t, storageAccount);
    NothingRecorded(result.Value());
    var stack: seq<Word> := [];
    ghost var before := result.Value();
    for i := 0 to |t.ops|
      invariant stack == StackAt(codes, t, i)
      invariant AcceptedBefore(codes, t, i)
      invariant result.Value() == RecordAll(before, Events(codes, t, storageAccount, i))
    {
      ok, stack := AnalyseOp(codes, t, i, storageAccount, stack, result);
      if !ok {
        NotAccepted(codes, t, i);
        return false;
      }
      EventsStep(codes, t, storageAccount, i);
      RecordAllSplit(before, Events(codes, t, storageAccount, i), OpEvents(codes, t, storageAccount, i));
    }
    ok := true;
  }

  ghost predicate AcceptedBefore(codes: Codes, t: Trace, n: nat)
    requires n <= |t.ops|
  {
    forall k :: 0 <= k < n ==> AcceptedOp(codes, t, k)
  }

  lemma AcceptedStarts(codes: Codes, t: Trace, sa: Option<Word>)
    ensures Accepted(codes, t) <==> AcceptedBefore(codes, t, |t.ops|)
    ensures AcceptedBefore(codes, t, 0) && StackAt(codes, t, 0) == [] && Events(codes, t, sa, 0) == []
  {
  }

  lemma NotAccepted(codes: Codes, t: Trace, i: nat)
    requires i < |t.ops| && !AcceptedOp(codes, t, i)
    ensures !Accepted(codes, t)
  {
  }

  lemma NothingRecorded(f: Footprint)
    ensures RecordAll(f, []) == f
  {
  }

  lemma EventsStep(codes: Codes, t: Trace, sa: Option<Word>, i: nat)
    requires i < |t.ops| && AcceptedOp(codes, t, i)
    ensures AcceptedBefore(codes, t, i) ==> AcceptedBefore(codes, t, i + 1)
    ensures Events(codes, t, sa, i + 1) == Events(codes, t, sa, i) + OpEvents(codes, t, sa, i)
  {
  }

  /** Pops and pushes one word at a time; popping an empty stack does nothing. */
  method MoveStack(stack: seq<Word>, del: nat, push: seq<Word>) returns (r: seq<Word>)
    ensures r == Popped(stack, del) + push
  {
    r := stack;
    var sdel := del;
    while sdel > 0
      invariant 0 <= sdel <= del && r == Popped(stack, del - sdel)
    {
      if r != [] {
        r := r[..|r| - 1];
      }
      sdel := sdel - 1;
    }
    assert r == Popped(stack, del) + push[..0];
    for i := 0 to |push|
      invariant r == Popped(stack, del) + push[..i]
    {
      r := r + [push[i]];
    }
    assert push[..|push|] == push;
  }

  /** One operation. */
  method AnalyseOp(codes: Codes, t: Trace, i: nat, sa: Option<Word>, stack: seq<Word>, result: Result)
    returns (ok: bool, next: seq<Word>)
    requires i < |t.ops| && stack == StackAt(codes, t, i)
    modifies result
    ensures ok <==> AcceptedOp(codes, t, i)
    ensures ok ==>
            result.Value() == RecordAll(old(result.Value()), OpEvents(codes, t, sa, i))
                && next == StackAt(codes, t, i + 1)
    decreases t, 1
  {
    var op := t.ops[i];
    var info := InfoAt(codes, t, op.pc);
    if info.None? {
      return false, [];
    }
    var kind := info.value.kind;
    if op.sub.Some? {
      ok := AnalyseCall(codes, kind, op.sub.value, sa, stack, result);
      if !ok {
        return false, [];
      }
    }
    if op.ex.None? || |op.ex.value| != info.value.add {
      return false, [];
    }
    if op.sub.None? {
      RecordPlain(kind, sa, stack, op.ex.value, result);
    }
    next := MoveStack(stack, info.value.del, op.ex.value);
    ok := true;
  }

  method AnalyseCall(codes: Codes, kind: Kind, sub: Trace, sa: Option<Word>, stack: seq<Word>, result: Result)
    returns (ok: bool)
    modifies result
    ensures ok <==> (IsCall(kind) || kind.Create?) && Accepted(codes, sub)
    ensures ok ==> result.Value() == RecordAll(old(result.Value()),
                     CallEvents(kind, sa, stack, sub) + Events(codes, sub, InnerStorage(kind, sa, stack), |sub.ops|))
    decreases sub, 3
  {
    var ac := sa;
    var callee := FromTop(stack, 1);
    ghost var f := result.Value();
    match kind {
      case Create =>
      case Call =>
        ac := callee;
        result.SetCode(AccountName(callee, sa), Known(sub.code));
      case CallCode => result.SetCode(AccountName(callee, sa), Known(sub.code));
      case DelegateCall => result.SetCode(AccountName(callee, sa), Needed);
      case StaticCall =>
        ac := callee;
        result.SetCode(AccountName(callee, sa), Needed);
      case _ => return false;
    }
    RecordOne(f, CallEvents(kind, sa, stack, sub));
    ok := Analyse(codes, sub, ac, result);
    if ok {
      RecordAllSplit(f, CallEvents(kind, sa, stack, sub), Events(codes, sub, InnerStorage(kind, sa, stack), |sub.ops|));
    }
  }

  method RecordPlain(kind: Kind, sa: Option<Word>, stack: seq<Word>, pushed: seq<Word>, result: Result)
    modifies result
    ensures result.Value() == RecordAll(old(result.Value()), PlainEvents(kind, sa, stack, pushed))
  {
    RecordOne(result.Value(), PlainEvents(kind, sa, stack, pushed));
    match kind
    case BlockHash => result.blocks := result.blocks + [FromTop(stack, 0)];
    case SLoad => result.SetStorage(AccountName(None, sa), Name(FromTop(stack, 0)), First(pushed));
    case Balance => result.SetBalance(AccountName(FromTop(stack, 0), sa), First(pushed));
    case ExtCode => result.SetCode(AccountName(FromTop(stack, 0), sa), Needed);
    case _ =>
  }

  lemma RecordOne(f: Footprint, es: seq<Event>)
    requires |es| <= 1
    ensures RecordAll(f, es) == if es == [] then f else Record(f, es[0])
  {
    if |es| == 1 {
      assert es[..0] == [];
    }
  }

  /** A new record holds the transaction's own account with its code; then the trace is analysed. */
  method AnalyseTransaction(t: Trace, storageAccount: Word) returns (r: Option<Footprint>)
    ensures r == if Accepted(Table, t)
                 then Some(RecordAll(Start(Some(storageAccount), t.code),
                                     Events(Table, t, Some(storageAccount), |t.ops|)))
                 else None
  {
    var result := new Result(Some(storageAccount), t.code);
    var ok := Analyse(Table, t, Some(storageAccount), result);
    r := if ok then Some(Footprint(result.blocks, result.accounts)) else None;
  }

  // ---------------------------------------------------------------- the footprint, independent of the order

  /**
    The analyser's rule for the storage of an inner execution, put right for creations: they work on the new account.
   */
  function RuleStorage(kind: Kind, sa: Option<Word>, stack: seq<Word>, pushed: seq<Word>): Option<Word>
  {
    match kind
    case Create => if pushed == [] then None else Some(pushed[0])
    case Call => FromTop(stack, 1)
    case StaticCall => FromTop(stack, 1)
    case DelegateCall => sa
    case CallCode => sa
    case _ => sa
  }

  /** What the first `n` operations touch by the rules so corrected. */
  function RuleEvents(codes: Codes, t: Trace, sa: Option<Word>, n: nat): seq<Event>
    requires n <= |t.ops|
    decreases t, n, 1
  {
    if n == 0 then [] else RuleEvents(codes, t, sa, n - 1) + RuleOpEvents(codes, t, sa, n - 1)
  }

  function RuleOpEvents(codes: Codes, t: Trace, sa: Option<Word>, i: nat): seq<Event>
    requires i < |t.ops|
    decreases t, i, 2
  {
    if !AcceptedOp(codes, t, i) then []
    else
      var op, kind, stack := t.ops[i], InfoAt(codes, t, t.ops[i].pc).value.kind, StackAt(codes, t, i);
      if op.sub.Some? then
        var sub := op.sub.value;
        CallEvents(kind, sa, stack, sub) + RuleEvents(codes, sub, RuleStorage(kind, sa, stack, op.ex.value), |sub.ops|)
      else
        PlainEvents(kind, sa, stack, op.ex.value)
  }

  /**
    One of the first `n` operations of `t`, or of an execution nested in them, brings about `e` by the corrected rules.
   */
  predicate ProducesBefore(codes: Codes, t: Trace, sa: Option<Word>, n: nat, e: Event)
    requires n <= |t.ops|
    decreases t, 1, n
  {
    n > 0 && (ProducesAt(codes, t, sa, n - 1, e) || ProducesBefore(codes, t, sa, n - 1, e))
  }

  predicate Produces(codes: Codes, t: Trace, sa: Option<Word>, e: Event)
    decreases t, 2
  {
    ProducesBefore(codes, t, sa, |t.ops|, e)
  }

  predicate ProducesAt(codes: Codes, t: Trace, sa: Option<Word>, i: nat, e: Event)
    requires i < |t.ops|
    decreases t, 0
  {
    var op, stack := t.ops[i], StackAt(codes, t, i);
    AcceptedOp(codes, t, i) &&
    var kind := InfoAt(codes, t, op.pc).value.kind;
    if op.sub.Some? then
      || e in CallEvents(kind, sa, stack, op.sub.value)
      || Produces(codes, op.sub.value, RuleStorage(kind, sa, stack, op.ex.value), e)
    else
      e in PlainEvents(kind, sa, stack, op.ex.value)
  }

  lemma InEither<T>(a: seq<T>, b: seq<T>, x: T)
    ensures x in a + b <==> x in a || x in b
  {
  }

  lemma {:induction false} EventsAreProduced(codes: Codes, t: Trace, sa: Option<Word>, n: nat, e: Event)
    requires n <= |t.ops| && Accepted(codes, t)
    ensures e in RuleEvents(codes, t, sa, n) <==> ProducesBefore(codes, t, sa, n, e)
    decreases t, n, 1
  {
    hide AcceptedOp, RuleOpEvents, ProducesAt, Produces, StackAt;
    if n > 0 {
      EventsAreProduced(codes, t, sa, n - 1, e);
      assert AcceptedOp(codes, t, n - 1);
      OpEventsAreProduced(codes, t, sa, n - 1, e);
      InEither(RuleEvents(codes, t, sa, n - 1), RuleOpEvents(codes, t, sa, n - 1), e);
    }
  }

  lemma {:induction false} OpEventsAreProduced(codes: Codes, t: Trace, sa: Option<Word>, i: nat, e: Event)
    requires i < |t.ops| && AcceptedOp(codes, t, i)
    ensures e in RuleOpEvents(codes, t, sa, i) <==> ProducesAt(codes, t, sa, i, e)
    decreases t, i, 2
  {
    if t.ops[i].sub.Some? {
      var sub, kind, stack := t.ops[i].sub.value, InfoAt(codes, t, t.ops[i].pc).value.kind, StackAt(codes, t, i);
      EventsAreProduced(codes, sub, RuleStorage(kind, sa, stack, t.ops[i].ex.value), |sub.ops|, e);
    }
  }

  // ---------------------------------------------------------------- when creations do no harm

  predicate NoAccount(a: Option<Word>)
  {
    a.None? || a.value == ""
  }

  /** The operation names the account whose storage is in use, not one from the stack. */
  predicate UsesOwn(kind: Kind, stack: seq<Word>)
  {
    match kind
    case SLoad => true
    case Balance => NoAccount(FromTop(stack, 0))
    case ExtCode => NoAccount(FromTop(stack, 0))
    case _ => false
  }

  predicate CallUsesOwn(kind: Kind, stack: seq<Word>)
  {
    IsCall(kind) && NoAccount(FromTop(stack, 1))
  }

  /**
    With `a` for the analyser's storage account and `b` for the corrected one: whenever one of the first `n` operations,
    or an execution nested in them, uses its own storage, the two are one account. They start to differ at a creation.
   */
  predicate AttributedBefore(codes: Codes, t: Trace, a: Option<Word>, b: Option<Word>, n: nat)
    requires n <= |t.ops|
    decreases t, 1, n
  {
    n > 0 ==> AttributedBefore(codes, t, a, b, n - 1) && AttributedAt(codes, t, a, b, n - 1)
  }

  predicate Attributed(codes: Codes, t: Trace, a: Option<Word>, b: Option<Word>)
    decreases t, 2
  {
    AttributedBefore(codes, t, a, b, |t.ops|)
  }

  predicate AttributedAt(codes: Codes, t: Trace, a: Option<Word>, b: Option<Word>, i: nat)
    requires i < |t.ops|
    decreases t, 0
  {
    var op, stack := t.ops[i], StackAt(codes, t, i);
    AcceptedOp(codes, t, i) ==>
      var kind := InfoAt(codes, t, op.pc).value.kind;
      if op.sub.Some? then
        && (CallUsesOwn(kind, stack) ==> Name(a) == Name(b))
        && Attributed(codes, op.sub.value, InnerStorage(kind, a, stack), RuleStorage(kind, b, stack, op.ex.value))
      else
        UsesOwn(kind, stack) ==> Name(a) == Name(b)
  }

  lemma ConcatEqual<T>(a: seq<T>, b: seq<T>, c: seq<T>, d: seq<T>)
    requires |a| == |c| && |b| == |d|
    ensures a + b == c + d <==> a == c && b == d
  {
    if a + b == c + d {
      assert a == (a + b)[..|a|] == c;
      assert b == (a + b)[|a|..] == d;
    }
  }

  /**
    The analysis on storage `a` yields the corrected events on storage `b`, in order, if and only if they are
    attributed.
   */
  lemma {:induction false} AttributionDecides(codes: Codes, t: Trace, a: Option<Word>, b: Option<Word>, n: nat)
    requires n <= |t.ops| && Accepted(codes, t)
    ensures |Events(codes, t, a, n)| == |RuleEvents(codes, t, b, n)|
    ensures Events(codes, t, a, n) == RuleEvents(codes, t, b, n) <==> AttributedBefore(codes, t, a, b, n)
    decreases t, n, 1
  {
    hide AcceptedOp, OpEvents, RuleOpEvents, AttributedAt, StackAt;
    if n > 0 {
      AttributionDecides(codes, t, a, b, n - 1);
      assert AcceptedOp(codes, t, n - 1);
      OpAttributionDecides(codes, t, a, b, n - 1);
      ConcatEqual(Events(codes, t, a, n - 1), OpEvents(codes, t, a, n - 1),
                  RuleEvents(codes, t, b, n - 1), RuleOpEvents(codes, t, b, n - 1));
    }
  }

  lemma {:induction false} OpAttributionDecides(codes: Codes, t: Trace, a: Option<Word>, b: Option<Word>, i: nat)
    requires i < |t.ops| && AcceptedOp(codes, t, i)
    ensures |OpEvents(codes, t, a, i)| == |RuleOpEvents(codes, t, b, i)|
    ensures OpEvents(codes, t, a, i) == RuleOpEvents(codes, t, b, i) <==> AttributedAt(codes, t, a, b, i)
    decreases t, i, 2
  {
    var op, kind, stack := t.ops[i], InfoAt(codes, t, t.ops[i].pc).value.kind, StackAt(codes, t, i);
    if op.sub.Some? {
      var sub := op.sub.value;
      var x, y := InnerStorage(kind, a, stack), RuleStorage(kind, b, stack, op.ex.value);
      AttributionDecides(codes, sub, x, y, |sub.ops|);
      CallNames(kind, a, b, stack, sub);
      ConcatEqual(CallEvents(kind, a, stack, sub), Events(codes, sub, x, |sub.ops|),
                  CallEvents(kind, b, stack, sub), RuleEvents(codes, sub, y, |sub.ops|));
    } else {
      PlainNames(kind, a, b, stack, op.ex.value);
    }
  }

  lemma CallNames(kind: Kind, a: Option<Word>, b: Option<Word>, stack: seq<Word>, sub: Trace)
    ensures |CallEvents(kind, a, stack, sub)| == |CallEvents(kind, b, stack, sub)|
    ensures CallEvents(kind, a, stack, sub) == CallEvents(kind, b, stack, sub)
            <==> (CallUsesOwn(kind, stack) ==> Name(a) == Name(b))
  {
    if CallEvents(kind, a, stack, sub) == CallEvents(kind, b, stack, sub) && IsCall(kind) {
      assert CallEvents(kind, a, stack, sub)[0].account == CallEvents(kind, b, stack, sub)[0].account;
    }
  }

  lemma PlainNames(kind: Kind, a: Option<Word>, b: Option<Word>, stack: seq<Word>, pushed: seq<Word>)
    ensures |PlainEvents(kind, a, stack, pushed)| == |PlainEvents(kind, b, stack, pushed)|
    ensures PlainEvents(kind, a, stack, pushed) == PlainEvents(kind, b, stack, pushed)
            <==> (UsesOwn(kind, stack) ==> Name(a) == Name(b))
  {
    if PlainEvents(kind, a, stack, pushed) == PlainEvents(kind, b, stack, pushed) && UsesOwn(kind, stack) {
      assert PlainEvents(kind, a, stack, pushed)[0].account == PlainEvents(kind, b, stack, pushed)[0].account;
    }
  }

  predicate NoCreations(codes: Codes, t: Trace)
    decreases t, 1
  {
    forall i :: 0 <= i < |t.ops| ==> NoCreationAt(codes, t, i)
  }

  predicate NoCreationAt(codes: Codes, t: Trace, i: nat)
    requires i < |t.ops|
    decreases t, 0
  {
    var info := InfoAt(codes, t, t.ops[i].pc);
    t.ops[i].sub.Some? ==> NoCreations(codes, t.ops[i].sub.value) && !(info.Some? && info.value.kind.Create?)
  }

  /** Without creations everything is attributed: delegating calls keep the storage account, the others switch it. */
  lemma {:induction false} NoCreationsAttribute(codes: Codes, t: Trace, sa: Option<Word>, n: nat)
    requires n <= |t.ops| && NoCreations(codes, t)
    ensures AttributedBefore(codes, t, sa, sa, n)
    decreases t, n
  {
    if n > 0 {
      NoCreationsAttribute(codes, t, sa, n - 1);
      assert NoCreationAt(codes, t, n - 1);
      var op, stack := t.ops[n - 1], StackAt(codes, t, n - 1);
      if op.sub.Some? && AcceptedOp(codes, t, n - 1) {
        var kind := InfoAt(codes, t, op.pc).value.kind;
        assert InnerStorage(kind, sa, stack) == RuleStorage(kind, sa, stack, op.ex.value);
        NoCreationsAttribute(codes, op.sub.value, InnerStorage(kind, sa, stack), |op.sub.value.ops|);
      }
    }
  }

  // ---------------------------------------------------------------- the recorded footprint

  predicate HasStorage(f: Footprint, account: Word, key: Word)
  {
    account in f.accounts && key in f.accounts[account].storage
  }

  predicate Touches(e: Event, account: Word)
  {
    !e.TouchBlock? && e.account == account
  }

  lemma {:induction false} RecordedKeys(f: Footprint, es: seq<Event>, account: Word, key: Word)
    ensures HasStorage(RecordAll(f, es), account, key)
            <==> HasStorage(f, account, key) || exists v :: TouchStorage(account, key, v) in es
  {
    if es != [] {
      var rest, last := es[..|es| - 1], es[|es| - 1];
      RecordedKeys(f, rest, account, key);
      assert es == rest + [last];
      if last.TouchStorage? {
        assert TouchStorage(last.account, last.key, last.value) in es;
      }
    }
  }

  lemma {:induction false} RecordedAccounts(f: Footprint, es: seq<Event>, account: Word)
    ensures account in RecordAll(f, es).accounts <==>
            account in f.accounts || exists e :: e in es && Touches(e, account)
  {
    if es != [] {
      var rest, last := es[..|es| - 1], es[|es| - 1];
      RecordedAccounts(f, rest, account);
      assert es == rest + [last];
      assert last in es;
    }
  }

  /** The two events are about one thing that has one place in the record. */
  predicate SameSlot(d: Event, e: Event)
  {
    match e
    case TouchBlock(_) => false
    case TouchStorage(a, k, _) => d.TouchStorage? && d.account == a && d.key == k
    case TouchBalance(a, _) => d.TouchBalance? && d.account == a
    case TouchCode(a, _) => d.TouchCode? && d.account == a
  }

  /** The event with the value that the record has in its place. */
  function Noted(f: Footprint, e: Event): Option<Event>
  {
    match e
    case TouchBlock(_) => None
    case TouchStorage(a, k, _) =>
      if HasStorage(f, a, k) then Some(TouchStorage(a, k, f.accounts[a].storage[k])) else None
    case TouchBalance(a, _) => Some(TouchBalance(a, AccountOf(f, a).balance))
    case TouchCode(a, _) =>
      var code := AccountOf(f, a).code;
      if code.Some? then Some(TouchCode(a, code.value)) else None
  }

  /** None of the events from `i` on is about the same as `e`. */
  ghost predicate NoneSince(es: seq<Event>, i: nat, e: Event)
  {
    forall k :: i <= k < |es| ==> !SameSlot(es[k], e)
  }

  /** Where no event is about the same, what was noted before stays. */
  lemma {:induction false} NotedStays(f: Footprint, es: seq<Event>, e: Event)
    requires !e.TouchBlock? && NoneSince(es, 0, e)
    ensures Noted(RecordAll(f, es), e) == Noted(f, e)
  {
    if es != [] {
      hide Noted, Record, SameSlot;
      var n := |es| - 1;
      NotedStays(f, es[..n], e);
      NotedStep(RecordAll(f, es[..n]), es[n], e);
    }
  }

  /** Of the events about one thing the last one is noted. */
  lemma LastIsNoted(f: Footprint, es: seq<Event>, i: nat, e: Event)
    requires !e.TouchBlock? && i < |es| && SameSlot(es[i], e) && NoneSince(es, i + 1, e)
    ensures Noted(RecordAll(f, es), e) == Some(es[i])
  {
    hide Noted, Record, SameSlot;
    var upTo, rest := es[..i + 1], es[i + 1..];
    assert es == upTo + rest && upTo[..i] == es[..i];
    RecordAllSplit(f, upTo, rest);
    NotedStep(RecordAll(f, es[..i]), es[i], e);
    NotedStays(RecordAll(f, upTo), rest, e);
  }

  lemma NotedStep(f: Footprint, d: Event, e: Event)
    requires !e.TouchBlock?
    ensures Noted(Record(f, d), e) == if SameSlot(d, e) then Some(d) else Noted(f, e)
  {
  }

  function BlockNumbers(es: seq<Event>): seq<Option<Word>>
  {
    if es == [] then []
    else
      var last := es[|es| - 1];
      BlockNumbers(es[..|es| - 1]) + (if last.TouchBlock? then [last.number] else [])
  }

  lemma {:induction false} RecordedBlocks(f: Footprint, es: seq<Event>)
    ensures RecordAll(f, es).blocks == f.blocks + BlockNumbers(es)
  {
    if es != [] {
      RecordedBlocks(f, es[..|es| - 1]);
    }
  }

  /**
    For an accepted trace that is attributed, as every trace without creations is, the recorded storage keys and
    accounts are those recorded before and those that some operation touches by the corrected rules: none is lost, none
    is added. What an execution of the EVM touches is another matter, see `EvmFootprint`.
   */
  lemma FootprintIsExact(codes: Codes, f: Footprint, t: Trace, sa: Option<Word>, account: Word, key: Word)
    requires Accepted(codes, t) && Attributed(codes, t, sa, sa)
    ensures var r := RecordAll(f, Events(codes, t, sa, |t.ops|));
            && (HasStorage(r, account, key) <==>
                HasStorage(f, account, key) || exists v :: Produces(codes, t, sa, TouchStorage(account, key, v)))
            && (account in r.accounts <==>
                account in f.accounts || exists e :: Produces(codes, t, sa, e) && Touches(e, account))
  {
    var es := Events(codes, t, sa, |t.ops|);
    AttributionDecides(codes, t, sa, sa, |t.ops|);
    forall e ensures e in es <==> Produces(codes, t, sa, e) {
      EventsAreProduced(codes, t, sa, |t.ops|, e);
    }
    RecordedKeys(f, es, account, key);
    RecordedAccounts(f, es, account);
  }
}
