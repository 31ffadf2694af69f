// What notes are worth across an operation: every half of a split, the output
// of a rotate or a merge, a note being melted, and the amount a settled note
// reports, over the arguments of the operations themselves.

module Worth {
  import opened Wrappers
  import opened Text
  import opened Bytes
  import opened Errors
  import opened Protocol
  import opened Mint
  import opened NoteUrl
  import opened Client
  import opened Safety

  /** These spends open these notes, distinct and outstanding, one each. */
  predicate Open(env: Env, m: MintState, k1s: seq<string>, ids: seq<Id>) {
    && |ids| == |k1s| > 0 && Distinct(ids)
    && forall i | 0 <= i < |ids| :: env.spendOf(k1s[i]) == Some(ids[i]) && ids[i] in m.live
  }

  /** Every one of these notes burned, `made` appeared where nothing was, and
      no other note moved. */
  ghost predicate OnlyThese(before: MintState, after: MintState, ids: seq<Id>, made: set<Id>) {
    && (forall id | id in ids :: id !in after.live && id in after.burned)
    && (forall id | id in made :: id in after.live && !Known(before, id))
    && (forall id | id !in ids && id !in made :: id in after.live <==> id in before.live)
    && (forall id | id !in ids && id !in made && id in before.live :: after.live[id] == before.live[id])
    && after.inFlight == before.inFlight
  }

  ghost predicate MergedInto(env: Env, before: MintState, after: MintState, k1s: seq<string>, newK1: string) {
    exists ids: seq<Id>, a: Id ::
      && Open(env, before, k1s, ids) && env.spendOf(newK1) == Some(a)
      && OnlyThese(before, after, ids, {a})
      && after.live[a] == SumOf(before.live, ids)
  }

  ghost predicate SplitInto(env: Env, before: MintState, after: MintState, k1s: seq<string>, amount: nat,
                            newK1: string, change: string)
  {
    exists ids: seq<Id>, a: Id, b: Id ::
      && Open(env, before, k1s, ids) && env.spendOf(newK1) == Some(a) && env.spendOf(change) == Some(b) && a != b
      && OnlyThese(before, after, ids, {a, b})
      && after.live[a] == amount && amount <= SumOf(before.live, ids)
      && after.live[b] == SumOf(before.live, ids) - amount
  }

  lemma LandedMerge(env: Env, before: MintState, call: Call, newK1: string)
    requires ValidMint(env, before) && Applicable(env, before, call)
    requires call.amount.None? && call.pr.None? && env.spendOf(newK1) == env.noteOf(call.outputs[0])
    ensures MergedInto(env, before, Apply(env, before, call), call.k1s, newK1)
  {
    var ids, outputs := Inputs(env, call).value, Outputs(env, call).value;
    var after, a := Apply(env, before, call), outputs[0];
    assert a in outputs;
    assert forall i | 0 <= i < |ids| :: ids[i] in ids;
    assert Open(env, before, call.k1s, ids);
    assert OnlyThese(before, after, ids, {a});
  }

  lemma LandedSplit(env: Env, before: MintState, call: Call, newK1: string, change: string)
    requires ValidMint(env, before) && Applicable(env, before, call)
    requires call.amount.Some? && call.pr.None?
    requires env.spendOf(newK1) == env.noteOf(call.outputs[0]) && env.spendOf(change) == env.noteOf(call.outputs[1])
    ensures SplitInto(env, before, Apply(env, before, call), call.k1s, call.amount.value, newK1, change)
  {
    var ids, outputs := Inputs(env, call).value, Outputs(env, call).value;
    var after, a, b := Apply(env, before, call), outputs[0], outputs[1];
    assert a in outputs && b in outputs && a != b;
    assert forall i | 0 <= i < |ids| :: ids[i] in ids;
    assert Open(env, before, call.k1s, ids);
    assert OnlyThese(before, after, ids, {a, b});
  }

  /** A rotate or a merge burns the note of every k1 passed, and its one output
      is worth what they were together. Whatever the mint does, that happens
      whole or not at all; against an honest one, success means it happened. */
  lemma MergedIsWorthItsInputs(s: Setup, w: World, kind: MutationKind, callback: string, k1s: seq<string>,
                               newK1: string)
    requires ValidMint(s.env, w.mint) && WellMade(s.env, newK1) && Unseen(s.env, w.mint, newK1)
    ensures var (w', r) := MergeNotes(s, w, kind, callback, k1s, newK1);
            && (w'.mint == w.mint || MergedInto(s.env, w.mint, w'.mint, k1s, newK1))
            && (r.Ok? ==> r.value.k1 == newK1)
            && (Honest(s.env, s.service) && r.Ok? ==> MergedInto(s.env, w.mint, w'.mint, k1s, newK1))
  {
    hide Honest, ValidMint, MergedInto, Applicable, Apply, Unseen, Mutate;
    var built := MergeRequest(s.env, callback, k1s, newK1);
    if built.Ok? {
      var request := built.value;
      UnseenOutput(s.env, w.mint, newK1, request.call, 0);
      if CanSend(s, callback) {
        MutateReaches(s, w, w.mint, request, kind, Retries(s, kind));
        assert built == Ok(request) && request.call.k1s == k1s;
        var (w', r) := Mutate(s, w, request, kind, Retries(s, kind));
        assert MergeNotes(s, w, kind, callback, k1s, newK1).1.Ok? == r.Ok?;
        if Applicable(s.env, w.mint, request.call) { LandedMerge(s.env, w.mint, request.call, newK1); }
      } else {
        RefusedUnsent(s, w, request, kind, Retries(s, kind));
      }
    }
  }

  lemma UnseenOutput(env: Env, m: MintState, secret: string, call: Call, j: nat)
    requires ValidMint(env, m) && Unseen(env, m, secret) && j < |call.outputs|
    requires OutputFor(env, secret) == Ok(call.outputs[j])
    ensures call !in m.applied
  {
    UnseenIsUnapplied(env, m, call, j);
  }

  /** A split burns the note of every k1 passed: the new note is worth exactly
      the amount asked for, and the change the rest of what they were. */
  lemma SplitIsWorthItsParts(s: Setup, w: World, callback: string, k1s: seq<string>, amount: nat, newK1: string,
                             change: string)
    requires ValidMint(s.env, w.mint)
    requires WellMade(s.env, newK1) && Unseen(s.env, w.mint, newK1)
    requires WellMade(s.env, change) && Unseen(s.env, w.mint, change)
    ensures var (w', r) := SplitNote(s, w, callback, k1s, amount, newK1, change);
            && (w'.mint == w.mint || SplitInto(s.env, w.mint, w'.mint, k1s, amount, newK1, change))
            && (r.Ok? ==> r.value.k1 == newK1 && r.value.change == change)
            && (Honest(s.env, s.service) && r.Ok? ==> SplitInto(s.env, w.mint, w'.mint, k1s, amount, newK1, change))
  {
    hide Honest, ValidMint, SplitInto, Applicable, Apply, Unseen, Mutate;
    var built := SplitRequest(s.env, callback, k1s, amount, newK1, change);
    if built.Ok? {
      var request := built.value;
      UnseenOutput(s.env, w.mint, newK1, request.call, 0);
      if CanSend(s, callback) {
        MutateReaches(s, w, w.mint, request, Split, Retries(s, Split));
        assert built == Ok(request) && request.call.k1s == k1s && request.call.amount == Some(amount);
        var (w', r) := Mutate(s, w, request, Split, Retries(s, Split));
        assert SplitNote(s, w, callback, k1s, amount, newK1, change).1.Ok? == r.Ok?;
        if Applicable(s.env, w.mint, request.call) { LandedSplit(s.env, w.mint, request.call, newK1, change); }
      } else {
        RefusedUnsent(s, w, request, Split, Retries(s, Split));
      }
    }
  }

  /** What a melt puts on the wire, once: the k1 and the invoice, trimmed. An
      honest mint that confirms one it had not already applied is paying the
      note out at its own value. */
  lemma MeltSendsItsNote(s: Setup, w: World, callback: string, k1: string, pr: string)
    requires ValidMint(s.env, w.mint)
    ensures var call := Call([k1], None, [], Some(Trim(pr)));
            var (w', r) := MeltNote(s, w, callback, k1, pr);
            && (!s.config.offline && s.env.allowed(callback) ==>
                  w' == World(After(s.env, w.mint, call, s.service.onSend(w.sent, w.mint, call)), w.sent + 1))
            && (s.config.offline || !s.env.allowed(callback) ==> w' == w && r == Err(RequestRefused))
            && (Honest(s.env, s.service) && r.Ok? && call !in w.mint.applied ==>
                  var id := s.env.spendOf(k1);
                  && id.Some? && id.value in w.mint.live && id.value !in w'.mint.live && id.value in w'.mint.inFlight
                  && w'.mint.inFlight[id.value] == w.mint.live[id.value])
  {
    hide Honest, Applicable, Apply;
    var call := Call([k1], None, [], Some(Trim(pr)));
    var request := Request(callback, call, []);
    if CanSend(s, callback) {
      assert MeltRequest(s.env, callback, k1, pr) == Ok(request);
      if call !in w.mint.applied { MutateReaches(s, w, w.mint, request, MutationKind.Melt, 0); }
      if Applicable(s.env, w.mint, call) { MeltedWhole(s.env, w.mint, call); }
    } else if s.env.allowed(callback) {
      RefusedUnsent(s, w, request, MutationKind.Melt, 0);
    }
  }

  lemma MeltedWhole(env: Env, m: MintState, call: Call)
    requires Applicable(env, m, call) && call.pr.Some?
    ensures var id, m' := env.spendOf(call.k1s[0]), Apply(env, m, call);
            && id.Some? && id.value in m.live && id.value !in m'.live && id.value in m'.inFlight
            && m'.inFlight[id.value] == m.live[id.value]
  {
    var ids := Inputs(env, call).value;
    assert ids == [ids[0]] && ids[0] in ids;
    assert SumOf(m.live, ids[1..]) == 0;
  }

  // ---- what the answers become ----

  /** The certificate among a field's two names: the current one unless it is
      absent or empty, then the legacy one unless it is. */
  predicate FoundIn(current: Option<string>, legacy: Option<string>, found: Option<string>) {
    if current.Some? && current.value != "" then found == current
    else if legacy.Some? && legacy.value != "" then found == legacy
    else found == None
  }

  /** Send `n` of this call was confirmed with this body. */
  ghost predicate ConfirmedAt(s: Setup, call: Call, n: nat, body: Body) {
    body.status == Some("OK") && exists m ::
      var fate := s.service.onSend(n, m, call);
      fate.arrives && fate.answer == Json(body)
  }

  lemma {:induction false} OkIsTheLastAnswer(s: Setup, w: World, request: Request, kind: MutationKind, retries: nat)
    returns (body: Body)
    requires Mutate(s, w, request, kind, retries).1.Ok?
    ensures var (w', r) := Mutate(s, w, request, kind, retries);
            && w'.sent > w.sent && ConfirmedAt(s, request.call, w'.sent - 1, body)
            && FoundIn(body.c, body.sig, r.value.signature) && FoundIn(body.c2, body.sig2, r.value.changeSignature)
            && r.value.pr == body.pr && r.value.verify == body.verify
    decreases retries
  {
    var (w', outcome) := Attempt(s, w, request, kind);
    if outcome.Ok? {
      var fate := s.service.onSend(w.sent, w.mint, request.call);
      body := fate.answer.body;
      OnlyOkIsOk(s.env, body, kind, request.call.outputs, s.config.policy);
    } else {
      body := OkIsTheLastAnswer(s, w', request, kind, retries - 1);
    }
  }

  /** The certificate a rotate or a merge returns is its confirming answer's. */
  lemma MergeReportsItsAnswer(s: Setup, w: World, kind: MutationKind, callback: string, k1s: seq<string>, newK1: string)
    returns (body: Body)
    requires MergeNotes(s, w, kind, callback, k1s, newK1).1.Ok?
    ensures var (w', r) := MergeNotes(s, w, kind, callback, k1s, newK1);
            && s.env.hash(newK1).Some? && w'.sent > 0
            && ConfirmedAt(s, Call(k1s, None, [Trim(s.env.hash(newK1).value)], None), w'.sent - 1, body)
            && FoundIn(body.c, body.sig, r.value.signature)
  {
    var request := MergeRequest(s.env, callback, k1s, newK1).value;
    body := OkIsTheLastAnswer(s, w, request, kind, Retries(s, kind));
  }

  /** And a split's two, each its own output's. */
  lemma SplitReportsItsAnswer(s: Setup, w: World, callback: string, k1s: seq<string>, amount: nat, newK1: string,
                              change: string)
    returns (body: Body)
    requires SplitNote(s, w, callback, k1s, amount, newK1, change).1.Ok?
    ensures var (w', r) := SplitNote(s, w, callback, k1s, amount, newK1, change);
            && s.env.hash(newK1).Some? && s.env.hash(change).Some? && w'.sent > 0
            && (var outputs := [Trim(s.env.hash(newK1).value), Trim(s.env.hash(change).value)];
                ConfirmedAt(s, Call(k1s, Some(amount), outputs, None), w'.sent - 1, body))
            && FoundIn(body.c, body.sig, r.value.signature) && FoundIn(body.c2, body.sig2, r.value.changeSignature)
  {
    var request := SplitRequest(s.env, callback, k1s, amount, newK1, change).value;
    body := OkIsTheLastAnswer(s, w, request, Split, Retries(s, Split));
  }

  /** A melt's proof and verify link are its answer's. */
  lemma MeltReportsItsAnswer(s: Setup, w: World, callback: string, k1: string, pr: string) returns (body: Body)
    requires MeltNote(s, w, callback, k1, pr).1.Ok?
    ensures var (w', r) := MeltNote(s, w, callback, k1, pr);
            && ConfirmedAt(s, Call([k1], None, [], Some(Trim(pr))), w.sent, body)
            && r.value.pr == body.pr && r.value.verify == body.verify
  {
    var request := MeltRequest(s.env, callback, k1, pr).value;
    body := OkIsTheLastAnswer(s, w, request, MutationKind.Melt, 0);
  }

  // ---- what is sent at all ----

  /** A secret whose disclosed hash names a note. */
  predicate Nameable(env: Env, secret: string) {
    env.hash(secret).Some? && env.noteOf(Trim(env.hash(secret).value)).Some?
  }

  /** A rotate or a merge is sent exactly when the client may send, has k1s to
      burn and a secret it can name; otherwise the error says which is missing
      and nothing has changed. */
  lemma MergeSendsIff(s: Setup, w: World, kind: MutationKind, callback: string, k1s: seq<string>, newK1: string)
    ensures var (w', r) := MergeNotes(s, w, kind, callback, k1s, newK1);
            && (w'.sent > w.sent <==>
                  !s.config.offline && s.env.allowed(callback) && k1s != [] && Nameable(s.env, newK1))
            && (w'.sent <= w.sent ==>
                  w' == w && r == Err(if s.env.hash(newK1).None? then ProtocolError else RequestRefused))
  {
    hide WithSecrets, ParseMutation;
    var built := MergeRequest(s.env, callback, k1s, newK1);
    if built.Ok? {
      if CanSend(s, callback) {
        SendsOn(s, w, built.value, kind, Retries(s, kind));
      } else {
        RefusedUnsent(s, w, built.value, kind, Retries(s, kind));
      }
    }
  }

  /** A split needs both its secrets. */
  lemma SplitSendsIff(s: Setup, w: World, callback: string, k1s: seq<string>, amount: nat, newK1: string,
                      change: string)
    ensures var (w', r) := SplitNote(s, w, callback, k1s, amount, newK1, change);
            && (w'.sent > w.sent <==>
                  && !s.config.offline && s.env.allowed(callback) && k1s != []
                  && Nameable(s.env, newK1) && Nameable(s.env, change))
            && (w'.sent <= w.sent ==>
                  w' == w && r == Err(if s.env.hash(newK1).None? || s.env.hash(change).None? then ProtocolError
                                      else RequestRefused))
  {
    hide WithSecrets, ParseMutation;
    var built := SplitRequest(s.env, callback, k1s, amount, newK1, change);
    if built.Ok? {
      if CanSend(s, callback) {
        SendsOn(s, w, built.value, Split, Retries(s, Split));
      } else {
        RefusedUnsent(s, w, built.value, Split, Retries(s, Split));
      }
    }
  }

  lemma {:induction false} SendsOn(s: Setup, w: World, request: Request, kind: MutationKind, retries: nat)
    requires CanSend(s, request.callback)
    ensures Mutate(s, w, request, kind, retries).0.sent > w.sent
    decreases retries
  {
    hide WithSecrets, ParseMutation, After;
    var (w', outcome) := Attempt(s, w, request, kind);
    if outcome.Err? && outcome.error.Ambiguous? && retries > 0 {
      SendsOn(s, w', request, kind, retries - 1);
    }
  }

  // ---- how often a request is sent ----

  /** An answer that decides nothing: none, an unreadable one, or one with
      neither status. */
  predicate Undecided(answer: Answer) {
    answer.Json? ==> answer.body.status != Some("OK") && answer.body.status != Some("ERROR")
  }

  /** As long as nothing is decided the identical request is sent again, until
      its retries are used up; what surfaces is ambiguous and carries the
      secrets of the notes it may have minted. */
  lemma {:induction false} UndecidedIsResent(s: Setup, w: World, request: Request, kind: MutationKind, retries: nat)
    requires !s.config.offline && s.env.allowed(request.callback)
    requires forall n: nat, m | w.sent <= n :: Undecided(Reply(s.service.onSend(n, m, request.call)))
    ensures var (w', r) := Mutate(s, w, request, kind, retries);
            w'.sent == w.sent + retries + 1 && r == Err(Ambiguous(request.newSecrets))
    decreases retries
  {
    hide After;
    var (w', outcome) := Attempt(s, w, request, kind);
    assert Undecided(Reply(s.service.onSend(w.sent, w.mint, request.call)));
    assert outcome.Err? && outcome.error.Ambiguous?;
    if retries > 0 { UndecidedIsResent(s, w', request, kind, retries - 1); }
  }

  /** And where no send arrives, none of them changed the mint. */
  lemma {:induction false} NothingArrives(s: Setup, w: World, request: Request, kind: MutationKind, retries: nat)
    requires forall n: nat, m :: !s.service.onSend(n, m, request.call).arrives
    ensures Mutate(s, w, request, kind, retries).0.mint == w.mint && Mutate(s, w, request, kind, retries).1.Err?
    decreases retries
  {
    hide WithSecrets, ParseMutation;
    var (w', outcome) := Attempt(s, w, request, kind);
    assert !s.service.onSend(w.sent, w.mint, request.call).arrives;
    if outcome.error.Ambiguous? && retries > 0 { NothingArrives(s, w', request, kind, retries - 1); }
  }

  /** The first answer that decides is the last. */
  lemma DecidedIsFinal(s: Setup, w: World, request: Request, kind: MutationKind, retries: nat)
    requires !s.config.offline && s.env.allowed(request.callback)
    requires !Undecided(Reply(s.service.onSend(w.sent, w.mint, request.call)))
    ensures Mutate(s, w, request, kind, retries).0.sent == w.sent + 1
  {
    hide After, WithSecrets, ParseMutation;
    var body := Reply(s.service.onSend(w.sent, w.mint, request.call)).body;
    OnlyOkIsOk(s.env, body, kind, request.call.outputs, s.config.policy);
  }

  /** Undecided to the end, a rotate, merge or split is sent once and then as
      often as the client is set to retry, and a melt once, whatever it is. */
  lemma RetriesAre(s: Setup, w: World, callback: string, k1s: seq<string>, newK1: string, pr: string,
                   kind: MutationKind)
    requires !s.config.offline && s.env.allowed(callback) && k1s != [] && Nameable(s.env, newK1) && kind != Melt
    requires forall n: nat, m, call :: Undecided(Reply(s.service.onSend(n, m, call)))
    ensures MergeNotes(s, w, kind, callback, k1s, newK1).0.sent == w.sent + 1 + s.config.mutationRetries
    ensures MergeNotes(s, w, kind, callback, k1s, newK1).1 == Err(Ambiguous([newK1]))
    ensures MeltNote(s, w, callback, k1s[0], pr).0.sent == w.sent + 1
    ensures MeltNote(s, w, callback, k1s[0], pr).1 == Err(Ambiguous([]))
  {
    hide Mutate, Undecided;
    UndecidedIsResent(s, w, MergeRequest(s.env, callback, k1s, newK1).value, kind, s.config.mutationRetries);
    UndecidedIsResent(s, w, MeltRequest(s.env, callback, k1s[0], pr).value, MutationKind.Melt, 0);
  }

  lemma SplitRetriesAre(s: Setup, w: World, callback: string, k1s: seq<string>, amount: nat, newK1: string,
                        change: string)
    requires !s.config.offline && s.env.allowed(callback) && k1s != []
    requires Nameable(s.env, newK1) && Nameable(s.env, change)
    requires forall n: nat, m, call :: Undecided(Reply(s.service.onSend(n, m, call)))
    ensures SplitNote(s, w, callback, k1s, amount, newK1, change).0.sent == w.sent + 1 + s.config.mutationRetries
    ensures SplitNote(s, w, callback, k1s, amount, newK1, change).1 == Err(Ambiguous([newK1, change]))
  {
    hide Mutate, Undecided;
    var request := SplitRequest(s.env, callback, k1s, amount, newK1, change).value;
    UndecidedIsResent(s, w, request, Split, s.config.mutationRetries);
  }

  // ---- settling ----

  /** An informational GET that succeeds states what the note is worth. */
  ghost predicate StatesWorth(env: Env, service: Service, policy: Policy) {
    forall n: nat, m: MintState, query: Query ::
      var answer := service.onInfo(n, m, query);
      answer.Json? && NoteK1(query).Some? ==>
        var info := ParseNoteInfo(env, answer.body, query, policy);
        var id := env.spendOf(NoteK1(query).value);
        info.Ok? && id.Some? && id.value in m.live ==> info.value.maxWithdrawable == m.live[id.value]
  }

  lemma FetchedWorth(s: Setup, w: World, link: Link)
    requires HonestInfo(s.env, s.service, s.config.policy) && StatesWorth(s.env, s.service, s.config.policy)
    requires NoteK1(link.query).Some? && FetchNoteInfo(s, w, link).Ok?
    ensures var id := s.env.spendOf(NoteK1(link.query).value);
            && id.Some? && id.value in w.mint.live
            && FetchNoteInfo(s, w, link).value.maxWithdrawable == w.mint.live[id.value]
  {
    StrippedReads(link.query);
    FetchedIsLive(s, w, link);
    var answer := s.service.onInfo(w.sent, w.mint, WithoutCertificates(link.query));
    assert ParseNoteInfo(s.env, answer.body, link.query, s.config.policy)
        == ParseNoteInfo(s.env, answer.body, WithoutCertificates(link.query), s.config.policy);
  }

  /** What an outstanding k1 is worth. */
  function WorthOf(env: Env, m: MintState, k1: string): nat
    requires Outstanding(env, m, k1)
  {
    m.live[env.spendOf(Lower(k1)).value]
  }

  lemma MergedOne(env: Env, before: MintState, after: MintState, k1: string, newK1: string)
    requires MergedInto(env, before, after, [k1], newK1) && Lower(newK1) == newK1
    requires IgnoresCase(env, k1) && Outstanding(env, before, k1)
    ensures Outstanding(env, after, newK1) && WorthOf(env, after, newK1) == WorthOf(env, before, k1)
  {
    var ids: seq<Id>, a: Id :| Open(env, before, [k1], ids) && env.spendOf(newK1) == Some(a)
                               && OnlyThese(before, after, ids, {a}) && after.live[a] == SumOf(before.live, ids);
    assert env.spendOf([k1][0]) == Some(ids[0]);
    assert SumOf(before.live, ids[1..]) == 0;
  }

  /** The amount a settled note reports is what the note it returns is worth
      at the mint, whether the rotate went through or its refusal was forgiven,
      and whatever the caller expected. Its certificate comes with that note. */
  lemma SettledAmountIsItsWorth(s: Setup, w: World, base: Option<Link>, k1: string, expected: nat,
                                signature: Option<string>, newK1: string)
    requires Lawful(s, s.config.mutationRetries) && HonestInfo(s.env, s.service, s.config.policy)
    requires StatesWorth(s.env, s.service, s.config.policy)
    requires ValidMint(s.env, w.mint) && expected <= U64_MAX
    requires WellMade(s.env, newK1) && Unseen(s.env, w.mint, newK1) && Lower(newK1) == newK1
    requires IgnoresCase(s.env, k1)
    ensures var (w', r) := SettleNote(s, w, base, k1, expected, signature, newK1);
            r.Ok? ==>
              && Outstanding(s.env, w'.mint, r.value.k1) && r.value.amountMsat == WorthOf(s.env, w'.mint, r.value.k1)
              && (w'.mint == w.mint ==> r.value.k1 == k1 && r.value.signature == signature)
              && (w'.mint != w.mint ==> r.value.k1 == newK1)
  {
    SettledNoteIsLive(s, w, base, k1, expected, signature, newK1);
    if base.Some? {
      var query := Rewrite(EditOf(s.env.codec, Some(k1), expected, signature), base.value.query);
      NewNoteReadsBack(s.env.codec, base.value.query, k1, expected, signature);
      hide Rewrite, EditOf, HonestInfo, StatesWorth, Lawful, ValidMint, WellMade, Unseen, Honest, Lower;
      var link := Link(base.value.address, query);
      if FetchNoteInfo(s, w, link).Ok? {
        FetchedWorth(s, w, link);
        RotateKeepsWorth(s, w, FetchNoteInfo(s, w, link).value.callback, k1, newK1);
      }
    }
  }

  lemma RotateKeepsWorth(s: Setup, w: World, callback: string, k1: string, newK1: string)
    requires Lawful(s, s.config.mutationRetries) && ValidMint(s.env, w.mint)
    requires WellMade(s.env, newK1) && Unseen(s.env, w.mint, newK1) && Lower(newK1) == newK1
    requires IgnoresCase(s.env, k1) && Outstanding(s.env, w.mint, k1)
    ensures var (w', r) := MergeNotes(s, w, Rotate, callback, [k1], newK1);
            && (r.Ok? ==> r.value.k1 == newK1 && w'.mint != w.mint && Outstanding(s.env, w'.mint, newK1)
                          && WorthOf(s.env, w'.mint, newK1) == WorthOf(s.env, w.mint, k1))
            && (r.Err? && (r.error.ServiceRejected? || r.error.NotePending? || r.error.RequestRefused?) ==>
                  w'.mint == w.mint)
  {
    RotateForSettle(s, w, callback, k1, newK1);
    MergedIsWorthItsInputs(s, w, Rotate, callback, [k1], newK1);
    var (w', r) := MergeNotes(s, w, Rotate, callback, [k1], newK1);
    if r.Ok? {
      MergedOne(s.env, w.mint, w'.mint, k1, newK1);
      MergedMoves(s.env, w.mint, w'.mint, [k1], newK1);
    }
  }

  lemma MergedMoves(env: Env, before: MintState, after: MintState, k1s: seq<string>, newK1: string)
    requires MergedInto(env, before, after, k1s, newK1)
    ensures after != before
  {
    var ids: seq<Id>, a: Id :| Open(env, before, k1s, ids) && env.spendOf(newK1) == Some(a)
                               && OnlyThese(before, after, ids, {a}) && after.live[a] == SumOf(before.live, ids);
    assert a in after.live && a !in before.live;
  }

  /** The certificate an answer to send `n` confirmed with. */
  ghost predicate CertifiedAt(s: Setup, n: nat, certificate: Option<string>) {
    exists call: Call, body: Body :: ConfirmedAt(s, call, n, body) && FoundIn(body.c, body.sig, certificate)
  }

  /** Where a settled note's other fields come from: the callback from the GET,
      and the certificate from the rotate that minted it or, where its refusal
      was forgiven, from the caller. */
  lemma SettledFieldsAreItsOwn(s: Setup, w: World, base: Link, k1: string, expected: nat, signature: Option<string>,
                               newK1: string)
    requires SettleNote(s, w, Some(base), k1, expected, signature, newK1).1.Ok?
    ensures var (w', r) := SettleNote(s, w, Some(base), k1, expected, signature, newK1);
            var query := Rewrite(EditOf(s.env.codec, Some(k1), expected, signature), base.query);
            var answer := s.service.onInfo(w.sent, w.mint, WithoutCertificates(query));
            && answer.Json? && answer.body.callback == Some(r.value.callback)
            && answer.body.maxWithdrawable == Some(r.value.amountMsat)
            && ((r.value.k1 == k1 && r.value.signature == signature)
                || (r.value.k1 == newK1 && w'.sent > 0 && CertifiedAt(s, w'.sent - 1, r.value.signature)))
  {
    hide Perform, Rewrite, EditOf, WithoutCertificates, ClassifyNoteError, SameNote, IsCompressedPubkey, NoteK1, Lower,
         Trim;
    var query := Rewrite(EditOf(s.env.codec, Some(k1), expected, signature), base.query);
    var info := FetchNoteInfo(s, w, Link(base.address, query));
    var (w', rotated) := MergeNotes(s, w, Rotate, info.value.callback, [k1], newK1);
    if rotated.Ok? {
      var body := MergeReportsItsAnswer(s, w, Rotate, info.value.callback, [k1], newK1);
      var call := Call([k1], None, [Trim(s.env.hash(newK1).value)], None);
      assert ConfirmedAt(s, call, w'.sent - 1, body);
    }
  }

  // ---- a burned note's own wording ----

  /** Refused with "already in use", the wording LUD-25 fixes for a burned
      note, in any case and outer whitespace, a mutation keeps its secrets,
      whatever was lost before and however often it was sent. */
  lemma AlreadyInUseKeepsTheSecrets(s: Setup, w: World, request: Request, kind: MutationKind, retries: nat, body: Body)
    requires CanSend(s, request.callback)
    requires s.service.onSend(w.sent, w.mint, request.call).arrives
    requires s.service.onSend(w.sent, w.mint, request.call).answer == Json(body)
    requires body.status == Some("ERROR") && body.reason.Some? && Lower(Trim(body.reason.value)) == "already in use"
    ensures Mutate(s, w, request, kind, retries).1 == Err(NoteSpent(body.reason.value, request.newSecrets))
  {
    AlreadyInUseIsSpent(body.reason.value);
    hide ClassifyNoteError, Lower, Trim;
  }

  /** So a run that landed, lost its answer and is then told so ends holding
      the secret of the note it made. */
  lemma LandedThenAlreadyInUse(s: Setup, w: World, request: Request, kind: MutationKind, retries: nat, body: Body)
    requires CanSend(s, request.callback) && retries > 0
    requires Applicable(s.env, w.mint, request.call)
    requires s.service.onSend(w.sent, w.mint, request.call) == Fate(true, true, Lost)
    requires var fate := s.service.onSend(w.sent + 1, Apply(s.env, w.mint, request.call), request.call);
             fate == Fate(true, false, Json(body))
    requires body.status == Some("ERROR") && body.reason.Some? && Lower(Trim(body.reason.value)) == "already in use"
    ensures Mutate(s, w, request, kind, retries)
         == (World(Apply(s.env, w.mint, request.call), w.sent + 2),
             Err(NoteSpent(body.reason.value, request.newSecrets)))
  {
    AlreadyInUseIsSpent(body.reason.value);
    hide Applicable, Apply, ClassifyNoteError, Lower, Trim;
    var w1 := World(Apply(s.env, w.mint, request.call), w.sent + 1);
    assert Attempt(s, w, request, kind) == (w1, Err(Ambiguous(request.newSecrets)));
    AlreadyInUseKeepsTheSecrets(s, w1, request, kind, retries - 1, body);
  }

  /** A failed rotate is forgiven exactly where it burned nothing: refused
      unsent, refused by the mint or still pending. "Already in use", and every
      error with a secret to carry, surfaces as it is. */
  lemma SettleForgivesIff(s: Setup, w: World, base: Link, k1: string, expected: nat, signature: Option<string>,
                          newK1: string)
    ensures var query := Rewrite(EditOf(s.env.codec, Some(k1), expected, signature), base.query);
            var info := FetchNoteInfo(s, w, Link(base.address, query));
            var r := SettleNote(s, w, Some(base), k1, expected, signature, newK1).1;
            && (info.Err? ==> r == Err(info.error))
            && (info.Ok? ==>
                  var rotated := MergeNotes(s, w, Rotate, info.value.callback, [k1], newK1).1;
                  rotated.Err? ==>
                    match rotated.error
                    case RequestRefused => r.Ok? && r.value.k1 == k1
                    case ServiceRejected(_) => r.Ok? && r.value.k1 == k1
                    case NotePending => r.Ok? && r.value.k1 == k1
                    case other => r == Err(other))
    ensures SettleNote(s, w, None, k1, expected, signature, newK1) == (w, Err(RequestRefused))
  {
    hide MergeNotes, FetchNoteInfo, Rewrite, EditOf;
  }

  // ---- probing ----

  /** A probe says a note is gone exactly when the mint's answer says it is
      spent or unknown, and live exactly when its answer is a note. */
  lemma ProbeIff(s: Setup, w: World, link: Link)
    ensures var answer := s.service.onInfo(w.sent, w.mint, WithoutCertificates(link.query));
            var sent := !s.config.offline && s.env.allowed(link.address);
            && (ProbeBurnedNote(s, w, link) == Gone <==>
                  && sent && answer.Json? && answer.body.status == Some("ERROR")
                  && var reason := if answer.body.reason == None then "" else answer.body.reason.value;
                     var refusal := ClassifyNoteError(reason);
                     refusal.NoteSpent? || refusal.NoteUnknown?)
            && (ProbeBurnedNote(s, w, link) == Live <==>
                  sent && answer.Json? && ParseNoteInfo(s.env, answer.body, link.query, s.config.policy).Ok?)
  {
    hide ClassifyNoteError, ParseNoteInfo, WithoutCertificates;
    var answer := s.service.onInfo(w.sent, w.mint, WithoutCertificates(link.query));
    if answer.Json? { NoteInfoOkIff(s.env, answer.body, link.query, s.config.policy); }
  }
}
