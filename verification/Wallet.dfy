// A wallet over whole runs: whatever sequence of operations it performs, and
// whatever the transport loses, keeping every secret it is handed keeps its
// money.

module Wallet {
  import opened Wrappers
  import opened Errors
  import opened Protocol
  import opened Mint
  import opened Client
  import opened Safety
  import NoteUrl

  datatype Op =
    | Combine(kind: MutationKind, callback: string, k1s: seq<string>, newK1: string)
    | Divide(callback: string, k1s: seq<string>, amount: nat, newK1: string, change: string)
    | Melt(callback: string, k1: string, pr: string)
    | Settle(base: Option<Link>, k1: string, expected: nat, signature: Option<string>, newK1: string)

  /** One operation, and the secrets its result or its error hands back. */
  function Do(s: Setup, w: World, op: Op): (World, seq<string>) {
    match op
    case Combine(kind, callback, k1s, newK1) =>
      var (w', r) := MergeNotes(s, w, kind, callback, k1s, newK1);
      (w', if r.Ok? then [r.value.k1] else SecretsIn(r.error))
    case Divide(callback, k1s, amount, newK1, change) =>
      var (w', r) := SplitNote(s, w, callback, k1s, amount, newK1, change);
      (w', if r.Ok? then [r.value.k1, r.value.change] else SecretsIn(r.error))
    case Melt(callback, k1, pr) =>
      var (w', r) := MeltNote(s, w, callback, k1, pr);
      (w', if r.Ok? then [] else SecretsIn(r.error))
    case Settle(base, k1, expected, signature, newK1) =>
      var (w', r) := SettleNote(s, w, base, k1, expected, signature, newK1);
      (w', if r.Ok? then [r.value.k1] else SecretsIn(r.error))
  }

  /** A wallet that keeps everything it is handed. */
  function Run(s: Setup, w: World, kept: seq<string>, ops: seq<Op>): (World, seq<string>)
    decreases |ops|
  {
    if ops == [] then (w, kept)
    else
      var (w', held) := Do(s, w, ops[0]);
      Run(s, w', kept + held, ops[1..])
  }

  function Spent(op: Op): seq<string> {
    match op
    case Combine(_, _, k1s, _) => k1s
    case Divide(_, k1s, _, _, _) => k1s
    case Melt(_, k1, _) => [k1]
    case Settle(_, k1, _, _, _) => [k1]
  }

  function Drawn(op: Op): seq<string> {
    match op
    case Combine(_, _, _, newK1) => [newK1]
    case Divide(_, _, _, newK1, change) => [newK1, change]
    case Melt(_, _, _) => []
    case Settle(_, _, _, _, newK1) => [newK1]
  }

  /** The wallet spends what it holds, towards freshly drawn secrets. */
  ghost predicate MayDo(s: Setup, w: World, kept: seq<string>, op: Op) {
    && (forall k1 | k1 in Spent(op) :: k1 in kept)
    && (forall secret | secret in Drawn(op) :: WellMade(s.env, secret) && Unseen(s.env, w.mint, secret))
    && (op.Combine? ==> !op.kind.Melt?)
  }

  ghost predicate MayRun(s: Setup, w: World, kept: seq<string>, ops: seq<Op>)
    decreases |ops|
  {
    ops != [] ==>
      && MayDo(s, w, kept, ops[0])
      && var (w', held) := Do(s, w, ops[0]);
         MayRun(s, w', kept + held, ops[1..])
  }

  predicate Opened(env: Env, kept: seq<string>, id: Id) {
    exists i | 0 <= i < |kept| :: env.spendOf(kept[i]) == Some(id)
  }

  /** Of some notes, those a kept secret opens, and the rest. */
  function Owned(env: Env, notes: map<Id, nat>, kept: seq<string>): map<Id, nat> {
    map id | id in notes && Opened(env, kept, id) :: notes[id]
  }

  function Others(env: Env, notes: map<Id, nat>, kept: seq<string>): map<Id, nat> {
    map id | id in notes && !Opened(env, kept, id) :: notes[id]
  }

  /** Two maps that share a third out between them. */
  ghost predicate Parts(whole: map<Id, nat>, a: map<Id, nat>, b: map<Id, nat>) {
    && (forall id | id in whole :: id in a || id in b)
    && (forall id | id in a :: id !in b && id in whole && whole[id] == a[id])
    && (forall id | id in b :: id !in a && id in whole && whole[id] == b[id])
  }

  lemma {:induction false} TotalOfParts(whole: map<Id, nat>, a: map<Id, nat>, b: map<Id, nat>)
    requires Parts(whole, a, b)
    ensures Total(whole) == Total(a) + Total(b)
    decreases |a|
  {
    if a == map[] {
      assert whole == b;
    } else {
      var id :| id in a;
      TotalRemove(whole, id);
      TotalRemove(a, id);
      assert (a - {id}).Keys == a.Keys - {id};
      TotalOfParts(whole - {id}, a - {id}, b);
    }
  }

  /** The wallet's money: the outstanding notes its kept secrets open, and
      those of them a melt is paying out. */
  ghost function Wealth(env: Env, m: MintState, kept: seq<string>): nat {
    Total(Owned(env, m.live, kept)) + Total(Owned(env, m.inFlight, kept))
  }

  lemma TotalIsOwnedAndOthers(env: Env, notes: map<Id, nat>, kept: seq<string>)
    ensures Total(notes) == Total(Owned(env, notes, kept)) + Total(Others(env, notes, kept))
  {
    TotalOfParts(notes, Owned(env, notes, kept), Others(env, notes, kept));
  }

  lemma OpenedConcat(env: Env, a: seq<string>, b: seq<string>, id: Id)
    ensures Opened(env, a + b, id) <==> Opened(env, a, id) || Opened(env, b, id)
  {
    var c := a + b;
    assert forall i | 0 <= i < |c| :: c[i] == if i < |a| then a[i] else b[i - |a|];
    assert forall i | 0 <= i < |a| :: a[i] == c[i];
    assert forall i | 0 <= i < |b| :: b[i] == c[i + |a|];
  }

  /** None of these opens a note of the mint's that `kept` does not. */
  ghost predicate OpensNothingElse(env: Env, m: MintState, kept: seq<string>, held: seq<string>) {
    forall id | (id in m.live || id in m.inFlight) && Opened(env, held, id) :: Opened(env, kept, id)
  }

  lemma InputsAreOpened(env: Env, call: Call, kept: seq<string>, id: Id)
    requires forall k1 | k1 in call.k1s :: k1 in kept
    requires Inputs(env, call).Some? && id in Inputs(env, call).value
    ensures Opened(env, kept, id)
  {
    var inputs := Inputs(env, call).value;
    var i :| 0 <= i < |inputs| && inputs[i] == id;
    assert env.spendOf(call.k1s[i]) == Some(id) && call.k1s[i] in kept;
    var j :| 0 <= j < |kept| && kept[j] == call.k1s[i];
  }

  lemma OwnedUnchanged(env: Env, notes: map<Id, nat>, kept: seq<string>, held: seq<string>)
    requires forall id | id in notes && Opened(env, held, id) :: Opened(env, kept, id)
    ensures Owned(env, notes, kept + held) == Owned(env, notes, kept)
  {
    forall id ensures id in Owned(env, notes, kept + held) <==> id in Owned(env, notes, kept) {
      OpenedConcat(env, kept, held, id);
    }
  }

  lemma OthersUntouched(env: Env, before: MintState, call: Call, after: MintState, kept: seq<string>, held: seq<string>)
    requires NothingOrphaned(env, before, call, after, held) && AtMostOnce(env, before, call, after)
    requires forall k1 | k1 in call.k1s :: k1 in kept
    requires OpensNothingElse(env, before, kept, held)
    ensures Others(env, after.live, kept + held) == Others(env, before.live, kept)
  {
    hide Total, ValidMint;
    var all := kept + held;
    forall id ensures id in Others(env, after.live, all) <==> id in Others(env, before.live, kept) {
      OpenedConcat(env, kept, held, id);
      if id in before.live && Inputs(env, call).Some? && id in Inputs(env, call).value {
        InputsAreOpened(env, call, kept, id);
      }
    }
    forall id | id in Others(env, before.live, kept)
      ensures Others(env, after.live, all)[id] == Others(env, before.live, kept)[id]
    {
      if Inputs(env, call).Some? && id in Inputs(env, call).value {
        InputsAreOpened(env, call, kept, id);
      }
    }
  }

  /** A safe mutation moves nothing out of the wallet and nothing into it. */
  lemma MutationKeepsWealth(env: Env, before: MintState, call: Call, after: MintState, kept: seq<string>,
                            held: seq<string>)
    requires NothingOrphaned(env, before, call, after, held) && AtMostOnce(env, before, call, after)
    requires after.inFlight == before.inFlight
    requires forall k1 | k1 in call.k1s :: k1 in kept
    requires OpensNothingElse(env, before, kept, held)
    ensures Wealth(env, after, kept + held) == Wealth(env, before, kept)
  {
    OthersUntouched(env, before, call, after, kept, held);
    hide Total, ValidMint, Owned, Others, NothingOrphaned;
    TotalIsOwnedAndOthers(env, before.live, kept);
    TotalIsOwnedAndOthers(env, after.live, kept + held);
    OwnedUnchanged(env, before.inFlight, kept, held);
  }

  lemma IdleKeepsWealth(env: Env, m: MintState, kept: seq<string>, held: seq<string>)
    requires OpensNothingElse(env, m, kept, held)
    ensures Wealth(env, m, kept + held) == Wealth(env, m, kept)
  {
    hide Total, Owned;
    OwnedUnchanged(env, m.live, kept, held);
    OwnedUnchanged(env, m.inFlight, kept, held);
  }

  /** The secrets of a request whose outputs are unseen open no note yet. */
  lemma SecretsOpenNothingYet(env: Env, m: MintState, request: Request, id: Id)
    requires SecretsOpen(env, request) && OutputsUnseen(env, m, request.call)
    requires Opened(env, request.newSecrets, id)
    ensures !Known(m, id)
  {
    var i :| 0 <= i < |request.newSecrets| && env.spendOf(request.newSecrets[i]) == Some(id);
    assert env.noteOf(request.call.outputs[i]) == Some(id);
  }

  ghost predicate OutputsUnseen(env: Env, m: MintState, call: Call) {
    forall j | 0 <= j < |call.outputs| :: env.noteOf(call.outputs[j]).Some? ==>
        !Known(m, env.noteOf(call.outputs[j]).value)
  }

  lemma HeldOpensNothingElse(s: Setup, m: MintState, kept: seq<string>, request: Request, held: seq<string>)
    requires held == [] || held == request.newSecrets
    requires SecretsOpen(s.env, request) && OutputsUnseen(s.env, m, request.call)
    ensures OpensNothingElse(s.env, m, kept, held)
  {
    if held != [] {
      forall id | Opened(s.env, held, id) ensures !Known(m, id) {
        SecretsOpenNothingYet(s.env, m, request, id);
      }
    }
  }

  lemma RequestKeepsWealth(s: Setup, w: World, kept: seq<string>, request: Request, kind: MutationKind)
    requires Lawful(s, Retries(s, kind)) && ValidMint(s.env, w.mint)
    requires request.call !in w.mint.applied && request.call.pr.None? && SecretsOpen(s.env, request)
    requires forall k1 | k1 in request.call.k1s :: k1 in kept
    requires OutputsUnseen(s.env, w.mint, request.call)
    ensures var (w', r) := Perform(s, w, Ok(request), kind);
            var held := Held(r, request.newSecrets);
            && ValidMint(s.env, w'.mint)
            && Wealth(s.env, w'.mint, kept + held) == Wealth(s.env, w.mint, kept)
            && OpensNothingElse(s.env, w.mint, kept, held)
  {
    var (w', r) := Perform(s, w, Ok(request), kind);
    var held := Held(r, request.newSecrets);
    PerformIsSafe(s, w, request, kind);
    FailuresAfterSending(s, w, request, kind, Retries(s, kind));
    HeldOpensNothingElse(s, w.mint, kept, request, held);
    MutationKeepsWealth(s.env, w.mint, request.call, w'.mint, kept, held);
  }

  // ---- melting ----

  /** What a melt may do: nothing, or move its one note from the outstanding
      ones to those being paid out, at its own value. */
  predicate MeltsOne(env: Env, before: MintState, k1: string, after: MintState) {
    var id := env.spendOf(k1);
    || after == before
    || (id.Some? && id.value in before.live
        && after.live == before.live - {id.value} && after.burned == before.burned
        && after.inFlight == before.inFlight[id.value := before.live[id.value]])
  }

  lemma AppliedMelt(env: Env, m: MintState, call: Call)
    requires Applicable(env, m, call) && call.pr.Some?
    ensures |call.k1s| == 1 && MeltsOne(env, m, call.k1s[0], Apply(env, m, call))
  {
    var inputs := Inputs(env, call).value;
    assert inputs == [inputs[0]] && inputs[0] in inputs;
    assert SumOf(m.live, inputs[1..]) == 0 && SumOf(m.live, inputs) == m.live[inputs[0]];
    assert Without(m.live, inputs) == m.live - {inputs[0]};
  }

  /** A melt touches no note but its own, whatever the mint and whatever is
      lost, and hands back no secret. */
  lemma MeltTouchesOneNote(s: Setup, w: World, callback: string, k1: string, pr: string)
    requires ValidMint(s.env, w.mint)
    ensures var (w', r) := MeltNote(s, w, callback, k1, pr);
            && ValidMint(s.env, w'.mint) && MeltsOne(s.env, w.mint, k1, w'.mint)
            && (r.Err? ==> SecretsIn(r.error) == [])
  {
    var built := MeltRequest(s.env, callback, k1, pr);
    if built.Ok? {
      var call := built.value.call;
      if Applicable(s.env, w.mint, call) {
        AppliedMelt(s.env, w.mint, call);
        ApplyKeepsValid(s.env, w.mint, call);
      }
      hide Applicable, Apply, ValidMint, MeltsOne;
      var (w', outcome) := Attempt(s, w, built.value, MutationKind.Melt);
      assert w'.mint == w.mint || (Applicable(s.env, w.mint, call) && w'.mint == Apply(s.env, w.mint, call));
      assert Perform(s, w, built, MutationKind.Melt).0 == w';
      FailuresAfterSending(s, w, built.value, MutationKind.Melt, 0);
    }
  }

  lemma MeltKeepsWealth(env: Env, before: MintState, k1: string, after: MintState, kept: seq<string>)
    requires ValidMint(env, before) && MeltsOne(env, before, k1, after) && k1 in kept
    ensures Wealth(env, after, kept) == Wealth(env, before, kept)
  {
    hide Total, ValidMint;
    if after != before {
      var id := env.spendOf(k1).value;
      assert Opened(env, kept, id) by {
        var i :| 0 <= i < |kept| && kept[i] == k1;
      }
      var live, inFlight := Owned(env, before.live, kept), Owned(env, before.inFlight, kept);
      assert Owned(env, after.live, kept) == live - {id};
      assert Owned(env, after.inFlight, kept) == inFlight[id := before.live[id]];
      NotInFlight(env, before, id);
      TotalRemove(live, id);
      TotalAdd(inFlight, id, before.live[id]);
    }
  }

  lemma NotInFlight(env: Env, m: MintState, id: Id)
    requires ValidMint(env, m) && id in m.live
    ensures id !in m.inFlight
  {
  }

  // ---- each operation ----

  lemma CombineKeepsWealth(s: Setup, w: World, kept: seq<string>, kind: MutationKind, callback: string,
                           k1s: seq<string>, newK1: string)
    requires Lawful(s, s.config.mutationRetries) && ValidMint(s.env, w.mint) && !kind.Melt?
    requires WellMade(s.env, newK1) && Unseen(s.env, w.mint, newK1)
    requires forall k1 | k1 in k1s :: k1 in kept
    ensures var (w', r) := MergeNotes(s, w, kind, callback, k1s, newK1);
            var held := if r.Ok? then [r.value.k1] else SecretsIn(r.error);
            && ValidMint(s.env, w'.mint)
            && Wealth(s.env, w'.mint, kept + held) == Wealth(s.env, w.mint, kept)
  {
    var built := MergeRequest(s.env, callback, k1s, newK1);
    if built.Ok? {
      UnseenIsUnapplied(s.env, w.mint, built.value.call, 0);
      RequestKeepsWealth(s, w, kept, built.value, kind);
      assert built == Ok(built.value) && built.value.newSecrets == [newK1];
      var (w', p) := Perform(s, w, built, kind);
      var (w'', r) := MergeNotes(s, w, kind, callback, k1s, newK1);
      assert w'' == w' && (if r.Ok? then [r.value.k1] else SecretsIn(r.error)) == Held(p, [newK1]);
    } else {
      assert kept + [] == kept;
      IdleKeepsWealth(s.env, w.mint, kept, []);
    }
  }

  lemma DivideKeepsWealth(s: Setup, w: World, kept: seq<string>, callback: string, k1s: seq<string>, amount: nat,
                          newK1: string, change: string)
    requires Lawful(s, s.config.mutationRetries) && ValidMint(s.env, w.mint)
    requires WellMade(s.env, newK1) && Unseen(s.env, w.mint, newK1)
    requires WellMade(s.env, change) && Unseen(s.env, w.mint, change)
    requires forall k1 | k1 in k1s :: k1 in kept
    ensures var (w', r) := SplitNote(s, w, callback, k1s, amount, newK1, change);
            var held := if r.Ok? then [r.value.k1, r.value.change] else SecretsIn(r.error);
            && ValidMint(s.env, w'.mint)
            && Wealth(s.env, w'.mint, kept + held) == Wealth(s.env, w.mint, kept)
  {
    var built := SplitRequest(s.env, callback, k1s, amount, newK1, change);
    if built.Ok? {
      UnseenIsUnapplied(s.env, w.mint, built.value.call, 0);
      RequestKeepsWealth(s, w, kept, built.value, Split);
      assert built == Ok(built.value) && built.value.newSecrets == [newK1, change];
      var (w', p) := Perform(s, w, built, Split);
      var (w'', r) := SplitNote(s, w, callback, k1s, amount, newK1, change);
      assert w'' == w';
      assert (if r.Ok? then [r.value.k1, r.value.change] else SecretsIn(r.error)) == Held(p, [newK1, change]);
    } else {
      assert kept + [] == kept;
      IdleKeepsWealth(s.env, w.mint, kept, []);
    }
  }

  lemma RefusalKeepsMint(s: Setup, w: World, callback: string, k1: string, newK1: string)
    requires Lawful(s, s.config.mutationRetries) && ValidMint(s.env, w.mint)
    requires WellMade(s.env, newK1) && Unseen(s.env, w.mint, newK1)
    ensures var (w', r) := MergeNotes(s, w, Rotate, callback, [k1], newK1);
            && (r.Err? && ForgivenBySettle(r.error) ==> w'.mint == w.mint)
            && (r.Ok? ==> r.value.k1 == newK1)
  {
    var built := MergeRequest(s.env, callback, [k1], newK1);
    if built.Ok? {
      UnseenIsUnapplied(s.env, w.mint, built.value.call, 0);
      PerformIsSafe(s, w, built.value, Rotate);
    }
  }

  /** The refusals after which settling keeps the k1 it was given. */
  predicate ForgivenBySettle(e: Error) {
    e.RequestRefused? || e.ServiceRejected? || e.NotePending?
  }

  lemma SettlingRotateKeepsWealth(s: Setup, w: World, kept: seq<string>, callback: string, k1: string, newK1: string)
    requires Lawful(s, s.config.mutationRetries) && ValidMint(s.env, w.mint)
    requires WellMade(s.env, newK1) && Unseen(s.env, w.mint, newK1) && k1 in kept
    ensures var (w', r) := MergeNotes(s, w, Rotate, callback, [k1], newK1);
            var held := if r.Ok? then [r.value.k1] else if ForgivenBySettle(r.error) then [k1] else SecretsIn(r.error);
            && ValidMint(s.env, w'.mint)
            && Wealth(s.env, w'.mint, kept + held) == Wealth(s.env, w.mint, kept)
  {
    CombineKeepsWealth(s, w, kept, Rotate, callback, [k1], newK1);
    RefusalKeepsMint(s, w, callback, k1, newK1);
    hide MergeNotes, Wealth, ValidMint, Lawful, WellMade, Unseen;
    forall id | Opened(s.env, [k1], id) ensures Opened(s.env, kept, id) {
      var i :| 0 <= i < |[k1]| && s.env.spendOf([k1][i]) == Some(id);
      var j :| 0 <= j < |kept| && kept[j] == k1;
    }
    IdleKeepsWealth(s.env, w.mint, kept, [k1]);
  }

  lemma FailedFetchHoldsNothing(s: Setup, w: World, link: Link)
    ensures FetchNoteInfo(s, w, link).Err? ==> SecretsIn(FetchNoteInfo(s, w, link).error) == []
  {
  }

  lemma SettleKeepsWealth(s: Setup, w: World, kept: seq<string>, base: Option<Link>, k1: string, expected: nat,
                          signature: Option<string>, newK1: string)
    requires Lawful(s, s.config.mutationRetries) && ValidMint(s.env, w.mint)
    requires WellMade(s.env, newK1) && Unseen(s.env, w.mint, newK1) && k1 in kept
    ensures var (w', r) := SettleNote(s, w, base, k1, expected, signature, newK1);
            var held := if r.Ok? then [r.value.k1] else SecretsIn(r.error);
            && ValidMint(s.env, w'.mint)
            && Wealth(s.env, w'.mint, kept + held) == Wealth(s.env, w.mint, kept)
  {
    hide FetchNoteInfo, MergeNotes, Wealth, ValidMint, Lawful, WellMade, Unseen;
    assert kept + [] == kept;
    if base.Some? {
      var query := NoteUrl.Rewrite(NoteUrl.EditOf(s.env.codec, Some(k1), expected, signature), base.value.query);
      var link := Link(base.value.address, query);
      FailedFetchHoldsNothing(s, w, link);
      var info := FetchNoteInfo(s, w, link);
      if info.Ok? {
        SettlingRotateKeepsWealth(s, w, kept, info.value.callback, k1, newK1);
      }
    }
  }

  /** One operation, of any kind, neither loses nor makes money. */
  lemma OperationKeepsWealth(s: Setup, w: World, kept: seq<string>, op: Op)
    requires Lawful(s, s.config.mutationRetries) && ValidMint(s.env, w.mint) && MayDo(s, w, kept, op)
    ensures var (w', held) := Do(s, w, op);
            ValidMint(s.env, w'.mint) && Wealth(s.env, w'.mint, kept + held) == Wealth(s.env, w.mint, kept)
  {
    match op
    case Combine(kind, callback, k1s, newK1) =>
      assert newK1 in Drawn(op);
      CombineKeepsWealth(s, w, kept, kind, callback, k1s, newK1);
    case Divide(callback, k1s, amount, newK1, change) =>
      assert newK1 in Drawn(op) && change in Drawn(op);
      DivideKeepsWealth(s, w, kept, callback, k1s, amount, newK1, change);
    case Melt(callback, k1, pr) =>
      assert k1 in Spent(op);
      MeltTouchesOneNote(s, w, callback, k1, pr);
      MeltKeepsWealth(s.env, w.mint, k1, MeltNote(s, w, callback, k1, pr).0.mint, kept);
      assert kept + [] == kept;
    case Settle(base, k1, expected, signature, newK1) =>
      assert newK1 in Drawn(op) && k1 in Spent(op);
      SettleKeepsWealth(s, w, kept, base, k1, expected, signature, newK1);
  }

  /** Over any run of rotates, merges, splits, melts and settles, through any
      losses and with any number of retries, what the kept secrets open,
      outstanding or being paid out, is worth exactly what it was. */
  lemma {:induction false} RunKeepsWealth(s: Setup, w: World, kept: seq<string>, ops: seq<Op>)
    requires Lawful(s, s.config.mutationRetries) && ValidMint(s.env, w.mint) && MayRun(s, w, kept, ops)
    ensures var (w', kept') := Run(s, w, kept, ops);
            ValidMint(s.env, w'.mint) && Wealth(s.env, w'.mint, kept') == Wealth(s.env, w.mint, kept)
    decreases |ops|
  {
    if ops != [] {
      OperationKeepsWealth(s, w, kept, ops[0]);
      var (w', held) := Do(s, w, ops[0]);
      RunKeepsWealth(s, w', kept + held, ops[1..]);
    }
  }
}
