// What every run keeps: no note is orphaned, no mutation lands twice, and a
// settled note is a live one.

module Safety {
  import opened Wrappers
  import opened Text
  import opened Bytes
  import opened Errors
  import opened Protocol
  import opened Mint
  import opened NoteUrl
  import opened Client

  // ---- hypotheses ----

  /** The mint is honest about what it applies and, once a request can be
      re-sent, refuses an applied one only as a dead note. */
  ghost predicate Lawful(s: Setup, retries: nat) {
    Honest(s.env, s.service) && (retries > 0 ==> RefusesOnlyAsDead(s.service))
  }

  /** A secret that opens the note its hash names, as every generated one does. */
  ghost predicate WellMade(env: Env, secret: string) {
    OutputFor(env, secret).Ok? ==> env.spendOf(secret) == env.noteOf(OutputFor(env, secret).value)
  }

  /** The mint has never seen the note a secret names. */
  ghost predicate Unseen(env: Env, m: MintState, secret: string) {
    OutputFor(env, secret).Ok? ==> !Known(m, env.noteOf(OutputFor(env, secret).value).value)
  }

  // ---- one request against the mint ----

  /** The request landed, once, on the mint it was made against. */
  ghost predicate Landed(env: Env, before: MintState, call: Call, m: MintState) {
    Applicable(env, before, call) && m == Apply(env, before, call)
  }

  /** How far a run may have taken the mint. */
  ghost predicate Reached(env: Env, before: MintState, call: Call, m: MintState) {
    m == before || Landed(env, before, call, m)
  }

  lemma LandedIsRecorded(env: Env, before: MintState, call: Call, m: MintState)
    requires ValidMint(env, before) && call !in before.applied && Reached(env, before, call, m)
    ensures call in m.applied <==> Landed(env, before, call, m)
    ensures Landed(env, before, call, m) ==> !Applicable(env, m, call)
    ensures !(m == before && Landed(env, before, call, m))
  {
    if Landed(env, before, call, m) {
      ApplyKeepsValid(env, before, call);
      assert m.applied == before.applied + [call];
      assert m.applied[|before.applied|] == call;
      AppliedIsNotApplicable(env, m, call);
    }
  }

  /** One attempt, whatever the mint: it lands the request or leaves the mint
      where it was, and lands nothing twice. */
  lemma AttemptReaches(s: Setup, w: World, before: MintState, request: Request, kind: MutationKind)
    requires ValidMint(s.env, before) && request.call !in before.applied
    requires Reached(s.env, before, request.call, w.mint) && CanSend(s, request.callback)
    ensures var (w', r) := Attempt(s, w, request, kind);
            && Reached(s.env, before, request.call, w'.mint) && w'.sent == w.sent + 1
            && (Landed(s.env, before, request.call, w.mint) ==> Landed(s.env, before, request.call, w'.mint))
            && (Honest(s.env, s.service) && r.Ok? ==> Landed(s.env, before, request.call, w'.mint))
            && (r.Err? ==> !r.error.RequestRefused?)
  {
    var call := request.call;
    var fate := s.service.onSend(w.sent, w.mint, call);
    var m' := After(s.env, w.mint, call, fate);
    LandedIsRecorded(s.env, before, call, w.mint);
    assert Reached(s.env, before, call, m');
    LandedIsRecorded(s.env, before, call, m');
    hide Apply, Applicable, ValidMint, ClassifyNoteError;
    if fate.arrives && fate.answer.Json? {
      OnlyOkIsOk(s.env, fate.answer.body, kind, call.outputs, s.config.policy);
    }
  }

  /** Every run of the retry loop reaches no further than one landing, whatever
      the mint, and an honest one is only ever believed rightly. */
  lemma {:induction false} MutateReaches(s: Setup, w: World, before: MintState, request: Request, kind: MutationKind,
                                         retries: nat)
    requires ValidMint(s.env, before) && request.call !in before.applied
    requires Reached(s.env, before, request.call, w.mint) && CanSend(s, request.callback)
    ensures var (w', r) := Mutate(s, w, request, kind, retries);
            && Reached(s.env, before, request.call, w'.mint)
            && w.sent < w'.sent <= w.sent + retries + 1
            && (Honest(s.env, s.service) && r.Ok? ==> Landed(s.env, before, request.call, w'.mint))
            && (r.Err? ==> !r.error.RequestRefused?)
    decreases retries
  {
    hide Honest, ValidMint, Landed;
    AttemptReaches(s, w, before, request, kind);
    var (w', outcome) := Attempt(s, w, request, kind);
    if outcome.Err? && outcome.error.Ambiguous? && retries > 0 {
      MutateReaches(s, w', before, request, kind, retries - 1);
    }
  }

  /** One attempt against a mint that keeps the rules: an error after landing
      has a place for the secrets. */
  lemma AttemptStep(s: Setup, w: World, before: MintState, request: Request, kind: MutationKind)
    requires Honest(s.env, s.service) && (w.mint == before || RefusesOnlyAsDead(s.service))
    requires ValidMint(s.env, before) && request.call !in before.applied
    requires Reached(s.env, before, request.call, w.mint) && CanSend(s, request.callback)
    ensures var (w', r) := Attempt(s, w, request, kind);
            && Reached(s.env, before, request.call, w'.mint) && w'.sent == w.sent + 1
            && (Landed(s.env, before, request.call, w.mint) ==> Landed(s.env, before, request.call, w'.mint))
            && (r.Ok? ==> Landed(s.env, before, request.call, w'.mint))
            && (r.Err? && Landed(s.env, before, request.call, w'.mint) ==> Carries(r.error))
            && (r.Err? ==> !r.error.RequestRefused?)
  {
    var call := request.call;
    var fate := s.service.onSend(w.sent, w.mint, call);
    AttemptReaches(s, w, before, request, kind);
    LandedIsRecorded(s.env, before, call, w.mint);
    LandedIsRecorded(s.env, before, call, After(s.env, w.mint, call, fate));
    if fate.arrives && fate.answer.Json? {
      OnlyOkIsOk(s.env, fate.answer.body, kind, call.outputs, s.config.policy);
      RefusalCarriesIffDead(Reason(fate.answer.body), []);
    }
  }

  /** Every run of the retry loop. */
  lemma {:induction false} MutateOutcome(s: Setup, w: World, before: MintState, request: Request, kind: MutationKind,
                                         retries: nat)
    requires Honest(s.env, s.service)
    requires (w.mint == before && retries == 0) || RefusesOnlyAsDead(s.service)
    requires ValidMint(s.env, before) && request.call !in before.applied
    requires Reached(s.env, before, request.call, w.mint) && CanSend(s, request.callback)
    ensures var (w', r) := Mutate(s, w, request, kind, retries);
            && Reached(s.env, before, request.call, w'.mint)
            && w.sent < w'.sent <= w.sent + retries + 1
            && (r.Ok? ==> Landed(s.env, before, request.call, w'.mint))
            && (r.Err? && Landed(s.env, before, request.call, w'.mint) ==>
                  Carries(r.error) && SecretsIn(r.error) == request.newSecrets)
            && (r.Err? ==> !r.error.RequestRefused?)
    decreases retries
  {
    AttemptStep(s, w, before, request, kind);
    var (w', outcome) := Attempt(s, w, request, kind);
    if outcome.Err? && outcome.error.Ambiguous? && retries > 0 {
      MutateOutcome(s, w', before, request, kind, retries - 1);
    }
  }

  /** A request that cannot be sent is refused, and sends nothing. */
  lemma RefusedUnsent(s: Setup, w: World, request: Request, kind: MutationKind, retries: nat)
    requires !CanSend(s, request.callback)
    ensures Mutate(s, w, request, kind, retries) == (w, Err(RequestRefused))
  {
  }

  // ---- what a mutation may do to the mint ----

  /** What a caller holds after a mutation: the outcome's secrets, or those
      the error carries. */
  function Held(r: Result<MutationResponse, Error>, secrets: seq<string>): seq<string> {
    if r.Ok? then secrets else SecretsIn(r.error)
  }

  /** No live note is orphaned: what is outstanding now was outstanding
      before at the same value, or is an output opened by the secret held in
      its place; and only the request's own inputs are gone. */
  ghost predicate NothingOrphaned(env: Env, before: MintState, call: Call, after: MintState, held: seq<string>) {
    && (forall id | id in before.live :: (id in after.live && after.live[id] == before.live[id])
                                         || (Inputs(env, call).Some? && id in Inputs(env, call).value))
    && (forall id | id in after.live && id !in before.live ::
          |held| == |call.outputs| &&
          exists j | 0 <= j < |held| :: env.noteOf(call.outputs[j]) == Some(id) && env.spendOf(held[j]) == Some(id))
  }

  /** The run landed at most once, moved no value, and is unmade or complete. */
  ghost predicate AtMostOnce(env: Env, before: MintState, call: Call, after: MintState) {
    && (after.applied == before.applied || after.applied == before.applied + [call])
    && Total(after.live) == Total(before.live)
    && ValidMint(env, after)
    && (after == before
        || (Inputs(env, call).Some? &&
            forall id | id in Inputs(env, call).value :: id !in after.live && id in after.burned))
  }

  /** The secrets a request carries open its outputs, in order. */
  ghost predicate SecretsOpen(env: Env, request: Request) {
    |request.newSecrets| == |request.call.outputs| &&
    forall j | 0 <= j < |request.newSecrets| ::
      env.spendOf(request.newSecrets[j]) == env.noteOf(request.call.outputs[j])
  }

  lemma LandedIsSafe(env: Env, before: MintState, request: Request, after: MintState, held: seq<string>)
    requires ValidMint(env, before) && request.call !in before.applied && request.call.pr.None?
    requires Landed(env, before, request.call, after)
    requires SecretsOpen(env, request) && held == request.newSecrets
    ensures NothingOrphaned(env, before, request.call, after, held)
    ensures AtMostOnce(env, before, request.call, after)
  {
    var call := request.call;
    var inputs, outputs := Inputs(env, call).value, Outputs(env, call).value;
    ApplyKeepsValid(env, before, call);
    ApplyConserves(env, before, call);
    ApplyKeepsAccounts(env, before, call);
    hide Total, ValidMint;
    forall id | id in before.live && id !in inputs ensures id in after.live && after.live[id] == before.live[id] {
      assert outputs[0] in outputs && (call.amount.Some? ==> outputs[1] in outputs);
      assert id !in outputs;
    }
    forall id | id in after.live && id !in before.live
      ensures exists j | 0 <= j < |held| :: env.noteOf(call.outputs[j]) == Some(id) && env.spendOf(held[j]) == Some(id)
    {
      var j := if id == outputs[0] then 0 else 1;
      assert env.noteOf(call.outputs[j]) == Some(outputs[j]) && outputs[j] == id;
    }
    forall id | id in inputs ensures id !in after.live && id in after.burned {
      if id in outputs { assert !Known(before, id); }
    }
  }

  /** Whatever the mint does, and however often a request is re-sent, it lands
      at most once and moves no value. */
  lemma AtMostOnceAlways(s: Setup, w: World, request: Request, kind: MutationKind)
    requires ValidMint(s.env, w.mint) && request.call !in w.mint.applied
    requires request.call.pr.None? && SecretsOpen(s.env, request)
    ensures AtMostOnce(s.env, w.mint, request.call, Perform(s, w, Ok(request), kind).0.mint)
  {
    var m' := Perform(s, w, Ok(request), kind).0.mint;
    if CanSend(s, request.callback) {
      MutateReaches(s, w, w.mint, request, kind, Retries(s, kind));
      if Landed(s.env, w.mint, request.call, m') {
        LandedIsSafe(s.env, w.mint, request, m', request.newSecrets);
      }
    } else {
      RefusedUnsent(s, w, request, kind, Retries(s, kind));
    }
  }

  /** Every built request that mints: whatever is lost, nothing is orphaned. */
  lemma PerformIsSafe(s: Setup, w: World, request: Request, kind: MutationKind)
    requires Lawful(s, Retries(s, kind)) && ValidMint(s.env, w.mint)
    requires request.call !in w.mint.applied && request.call.pr.None? && SecretsOpen(s.env, request)
    ensures var (w', r) := Perform(s, w, Ok(request), kind);
            && NothingOrphaned(s.env, w.mint, request.call, w'.mint, Held(r, request.newSecrets))
            && AtMostOnce(s.env, w.mint, request.call, w'.mint)
            && (r.Ok? ==> w'.mint.applied == w.mint.applied + [request.call])
            && (r == Err(RequestRefused) ==> w' == w)
            && w'.sent <= w.sent + Retries(s, kind) + 1
            && (w'.mint == w.mint || Landed(s.env, w.mint, request.call, w'.mint))
            && (w'.mint != w.mint ==> Held(r, request.newSecrets) == request.newSecrets)
            && (r.Err? && (r.error.ServiceRejected? || r.error.NotePending? || r.error.RequestRefused?) ==>
                w'.mint == w.mint)
  {
    var retries := Retries(s, kind);
    var (w', r) := Perform(s, w, Ok(request), kind);
    if !CanSend(s, request.callback) {
      RefusedUnsent(s, w, request, kind, retries);
      assert NothingOrphaned(s.env, w.mint, request.call, w'.mint, Held(r, request.newSecrets));
    } else {
      MutateOutcome(s, w, w.mint, request, kind, retries);
      if Landed(s.env, w.mint, request.call, w'.mint) {
        LandedIsSafe(s.env, w.mint, request, w'.mint, Held(r, request.newSecrets));
        LandedIsRecorded(s.env, w.mint, request.call, w'.mint);
      }
    }
  }

  // ---- rotate, merge and split ----

  lemma AppliedOutputIsKnown(env: Env, m: MintState, call: Call, j: nat)
    requires ValidMint(env, m) && call in m.applied && j < |call.outputs|
    ensures env.noteOf(call.outputs[j]).Some? && Known(m, env.noteOf(call.outputs[j]).value)
  {
    var outputs := Outputs(env, call).value;
    assert outputs[j] in outputs;
  }

  /** A call that names an unseen output has never been applied. */
  lemma UnseenIsUnapplied(env: Env, m: MintState, call: Call, j: nat)
    requires ValidMint(env, m) && j < |call.outputs| && env.noteOf(call.outputs[j]).Some?
    requires !Known(m, env.noteOf(call.outputs[j]).value)
    ensures call !in m.applied
  {
    if call in m.applied {
      AppliedOutputIsKnown(env, m, call, j);
    }
  }

  /** Everything a run of a built request keeps. */
  ghost predicate SafeRun(s: Setup, w: World, built: Result<Request, Error>, w': World, ok: bool, held: seq<string>) {
    if built.Err? then w' == w && !ok
    else
      && NothingOrphaned(s.env, w.mint, built.value.call, w'.mint, held)
      && AtMostOnce(s.env, w.mint, built.value.call, w'.mint)
      && (ok ==> w'.mint.applied == w.mint.applied + [built.value.call])
  }

  /** A rotate or a merge, over any transport and any number of retries. */
  lemma RotateAndMergeAreSafe(s: Setup, w: World, kind: MutationKind, callback: string, k1s: seq<string>, newK1: string)
    requires Lawful(s, Retries(s, kind)) && ValidMint(s.env, w.mint)
    requires WellMade(s.env, newK1) && Unseen(s.env, w.mint, newK1)
    ensures var (w', r) := MergeNotes(s, w, kind, callback, k1s, newK1);
            SafeRun(s, w, MergeRequest(s.env, callback, k1s, newK1), w', r.Ok?,
                    if r.Ok? then [r.value.k1] else SecretsIn(r.error))
  {
    var built := MergeRequest(s.env, callback, k1s, newK1);
    if built.Ok? {
      UnseenIsUnapplied(s.env, w.mint, built.value.call, 0);
      PerformIsSafe(s, w, built.value, kind);
    }
  }

  /** A split, its two secrets in output order. */
  lemma SplitIsSafe(s: Setup, w: World, callback: string, k1s: seq<string>, amount: nat, newK1: string, change: string)
    requires Lawful(s, Retries(s, Split)) && ValidMint(s.env, w.mint)
    requires WellMade(s.env, newK1) && Unseen(s.env, w.mint, newK1)
    requires WellMade(s.env, change) && Unseen(s.env, w.mint, change)
    ensures var (w', r) := SplitNote(s, w, callback, k1s, amount, newK1, change);
            SafeRun(s, w, SplitRequest(s.env, callback, k1s, amount, newK1, change), w', r.Ok?,
                    if r.Ok? then [r.value.k1, r.value.change] else SecretsIn(r.error))
  {
    var built := SplitRequest(s.env, callback, k1s, amount, newK1, change);
    if built.Ok? {
      UnseenIsUnapplied(s.env, w.mint, built.value.call, 0);
      PerformIsSafe(s, w, built.value, Split);
    }
  }

  // ---- what needs no hypothesis on the mint ----

  /** RequestRefused means no attempt was ever sent, whatever the mint does;
      and any failure after a send carries the secrets or is the mint's own
      plain refusal. */
  lemma {:induction false} FailuresAfterSending(s: Setup, w: World, request: Request, kind: MutationKind, retries: nat)
    ensures var (w', r) := Mutate(s, w, request, kind, retries);
            && (r == Err(RequestRefused) <==> !CanSend(s, request.callback))
            && (r == Err(RequestRefused) ==> w' == w)
            && (r.Err? && CanSend(s, request.callback) ==>
                  r.error.ServiceRejected? || r.error.NotePending?
                  || (Carries(r.error) && SecretsIn(r.error) == request.newSecrets))
            && w.sent <= w'.sent <= w.sent + retries + 1
    decreases retries
  {
    var (w', outcome) := Attempt(s, w, request, kind);
    if outcome.Err? && outcome.error.Ambiguous? && retries > 0 {
      FailuresAfterSending(s, w', request, kind, retries - 1);
    }
  }

  /** A melt is sent at most once, whatever the configuration and the mint. */
  lemma MeltIsSentAtMostOnce(s: Setup, w: World, callback: string, k1: string, pr: string)
    ensures var (w', r) := MeltNote(s, w, callback, k1, pr);
            && w.sent <= w'.sent <= w.sent + 1
            && (r == Err(RequestRefused) <==> !CanSend(s, callback))
            && (r == Err(RequestRefused) ==> w' == w)
  {
    var built := MeltRequest(s.env, callback, k1, pr);
    if built.Ok? {
      FailuresAfterSending(s, w, built.value, Melt, 0);
    }
  }

  // ---- settling ----

  lemma {:induction false} StrippedReads(query: Query)
    ensures FirstParam(WithoutCertificates(query), "k1") == FirstParam(query, "k1")
  {
    if query != [] {
      StrippedReads(query[1..]);
      FirstConcat(if IsCertificate(query[0].0) then [] else [query[0]], WithoutCertificates(query[1..]), "k1");
    }
  }

  /** An informational GET that succeeds names a live note. */
  lemma FetchedIsLive(s: Setup, w: World, link: Link)
    requires HonestInfo(s.env, s.service, s.config.policy) && NoteK1(link.query).Some?
    ensures var info, id := FetchNoteInfo(s, w, link), s.env.spendOf(NoteK1(link.query).value);
            && (info.Ok? ==> id.Some? && id.value in w.mint.live)
            && (info.Err? && (info.error.NoteSpent? || info.error.NoteUnknown?) && id.Some? ==>
                id.value !in w.mint.live)
  {
    StrippedReads(link.query);
    var answer := s.service.onInfo(w.sent, w.mint, WithoutCertificates(link.query));
    if answer.Json? {
      assert ParseNoteInfo(s.env, answer.body, link.query, s.config.policy)
          == ParseNoteInfo(s.env, answer.body, WithoutCertificates(link.query), s.config.policy);
    }
  }

  /** A k1, in the lowercase every note URL carries it in, opens a note
      outstanding at the mint. */
  predicate Outstanding(env: Env, m: MintState, k1: string) {
    var id := env.spendOf(Lower(k1));
    id.Some? && id.value in m.live
  }

  /** A k1 and its lowercase open one note, as every k1 the crate accepts does. */
  predicate IgnoresCase(env: Env, k1: string) {
    env.spendOf(Lower(k1)) == env.spendOf(k1)
  }

  /** Settling never returns a burned k1, and a rotate that may have landed
      unconfirmed always surfaces with its secret. */
  lemma SettledNoteIsLive(s: Setup, w: World, base: Option<Link>, k1: string, expected: nat, signature: Option<string>,
                          newK1: string)
    requires Lawful(s, s.config.mutationRetries) && HonestInfo(s.env, s.service, s.config.policy)
    requires ValidMint(s.env, w.mint) && expected <= U64_MAX
    requires WellMade(s.env, newK1) && Unseen(s.env, w.mint, newK1) && Lower(newK1) == newK1
    ensures var (w', r) := SettleNote(s, w, base, k1, expected, signature, newK1);
            && (r.Ok? ==> Outstanding(s.env, w'.mint, r.value.k1))
            && (r.Err? && w'.sent > w.sent ==> SecretsIn(r.error) == [newK1])
            && (w'.mint != w.mint ==> (r.Ok? && r.value.k1 == newK1) || (r.Err? && SecretsIn(r.error) == [newK1]))
  {
    if base.Some? {
      var query := Rewrite(EditOf(s.env.codec, Some(k1), expected, signature), base.value.query);
      NewNoteReadsBack(s.env.codec, base.value.query, k1, expected, signature);
      var link := Link(base.value.address, query);
      FetchedIsLive(s, w, link);
      var info := FetchNoteInfo(s, w, link);
      if info.Ok? {
        RotateForSettle(s, w, info.value.callback, k1, newK1);
      }
    }
  }

  lemma RotateForSettle(s: Setup, w: World, callback: string, k1: string, newK1: string)
    requires Lawful(s, s.config.mutationRetries) && ValidMint(s.env, w.mint)
    requires WellMade(s.env, newK1) && Unseen(s.env, w.mint, newK1) && Lower(newK1) == newK1
    ensures var (w', r) := MergeNotes(s, w, Rotate, callback, [k1], newK1);
            && (r.Ok? ==> r.value.k1 == newK1 && Outstanding(s.env, w'.mint, newK1))
            && (r.Err? && w'.sent > w.sent && !r.error.ServiceRejected? && !r.error.NotePending? ==>
                SecretsIn(r.error) == [newK1])
            && (r.Err? && (r.error.ServiceRejected? || r.error.NotePending? || r.error.RequestRefused?) ==>
                w'.mint == w.mint)
            && (w'.mint != w.mint ==> r.Ok? || SecretsIn(r.error) == [newK1])
            && (w'.sent == w.sent ==> w' == w)
  {
    var built := MergeRequest(s.env, callback, [k1], newK1);
    if built.Ok? {
      var request := built.value;
      UnseenIsUnapplied(s.env, w.mint, request.call, 0);
      PerformIsSafe(s, w, request, Rotate);
      FailuresAfterSending(s, w, request, Rotate, Retries(s, Rotate));
      var (w', r) := Perform(s, w, built, Rotate);
      if r.Ok? {
        assert w'.mint != w.mint by {
          assert |w'.mint.applied| == |w.mint.applied| + 1;
        }
        var outputs := Outputs(s.env, request.call).value;
        assert outputs[0] in w'.mint.live;
      }
      if !CanSend(s, callback) {
        RefusedUnsent(s, w, request, Rotate, Retries(s, Rotate));
      } else {
        MutateOutcome(s, w, w.mint, request, Rotate, Retries(s, Rotate));
      }
    }
  }

  // ---- probing ----

  /** After a mutation of unknown outcome, probing an input decides it: live
      means it never landed, gone means it did. */
  lemma ProbeDecides(s: Setup, w: World, before: MintState, call: Call, link: Link)
    requires HonestInfo(s.env, s.service, s.config.policy)
    requires ValidMint(s.env, before) && Reached(s.env, before, call, w.mint) && call.pr.None?
    requires NoteK1(link.query).Some? && s.env.spendOf(NoteK1(link.query).value).Some?
    requires var id := s.env.spendOf(NoteK1(link.query).value).value;
             id in before.live && Inputs(s.env, call).Some? && id in Inputs(s.env, call).value
    ensures ProbeBurnedNote(s, w, link) == Live ==> w.mint == before
    ensures ProbeBurnedNote(s, w, link) == Gone ==> Landed(s.env, before, call, w.mint)
  {
    FetchedIsLive(s, w, link);
    if Landed(s.env, before, call, w.mint) {
      var outputs := Outputs(s.env, call).value;
      assert forall o | o in outputs :: !Known(before, o);
      assert outputs[0] in outputs && (call.amount.Some? ==> outputs[1] in outputs);
    }
  }
}
