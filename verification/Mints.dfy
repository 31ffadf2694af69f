// Two mints. One keeps LUD-25's replay rule and meets every hypothesis; the
// other is as honest but does not replay, and shows exactly when the client
// is safe without the rule.

module Mints {
  import opened Wrappers
  import opened Text
  import opened Bytes
  import opened Errors
  import opened Protocol
  import opened Mint
  import opened NoteUrl
  import opened Client
  import opened Safety
  import opened Worth

  function Says(status: string, reason: string): Body {
    Body(Some(status), Some(reason), None, None, None, None, Missing, None, None, None, None, None, None, None)
  }

  lemma SaysMeans(reason: string)
    ensures IsOk(Says("OK", reason)) && !IsError(Says("OK", reason))
    ensures IsError(Says("ERROR", reason)) && !IsOk(Says("ERROR", reason))
  {
    assert |"OK"| != |"ERROR"|;
  }

  // ---- an informational GET that tells the truth ----

  /** A key of the right shape, for a client that demands one. */
  function SomePubkey(): (key: string)
    ensures |key| == 66 && "02" <= key && forall i | 0 <= i < |key| :: IsDigit(key[i])
  {
    "02" + seq(64, _ => '0')
  }

  lemma DigitsAreTidy(s: string)
    requires AllDigits(s)
    ensures Trim(s) == s && Lower(s) == s
  {
    TrimOfTrimmed(s);
    LowerOfLower(s);
  }

  lemma SomePubkeyIsCompressed()
    ensures IsCompressedPubkey(SomePubkey())
  {
    hide Trim, Lower, SomePubkey;
    DigitsAreTidy(SomePubkey());
  }

  function WithdrawBody(callback: string, k1: string, value: nat): Body {
    Body(None, None, Some("withdrawRequest"), Some(callback), Some(k1), Some(value), Missing, Some(SomePubkey()),
         None, None, None, None, None, None)
  }

  /** A withdrawRequest for an outstanding note, a refusal for any other. */
  function TruthfulInfo(env: Env, callback: string): (nat, MintState, Query) -> Answer {
    (n: nat, m: MintState, query: Query) =>
      var k1 := NoteK1(query);
      if k1.Some? && env.spendOf(k1.value).Some? && env.spendOf(k1.value).value in m.live
      then Json(WithdrawBody(callback, k1.value, m.live[env.spendOf(k1.value).value]))
      else Json(Says("ERROR", "unknown note"))
  }

  lemma TruthfulInfoIsHonest(env: Env, service: Service, callback: string, policy: Policy)
    requires service.onInfo == TruthfulInfo(env, callback)
    ensures HonestInfo(env, service, policy)
  {
    hide ClassifyNoteError, SameNote, NoteK1, IsCompressedPubkey, Lower;
    SaysMeans("unknown note");
  }

  /** Asked for an outstanding note, it is believed under every policy. */
  lemma TruthfulInfoIsBelieved(env: Env, policy: Policy, callback: string, k1: string, value: nat, query: Query)
    requires NoteK1(query) == Some(k1)
    ensures ParseNoteInfo(env, WithdrawBody(callback, k1, value), query, policy)
         == Ok(WithdrawInfo(callback, Lower(k1), value, 0))
  {
    SomePubkeyIsCompressed();
    hide IsCompressedPubkey, NoteK1, Lower, Trim, SomePubkey;
  }

  /** And what it states is what the note is worth. */
  lemma TruthfulInfoStatesWorth(env: Env, service: Service, callback: string, policy: Policy)
    requires service.onInfo == TruthfulInfo(env, callback)
    ensures StatesWorth(env, service, policy)
  {
    hide ParseNoteInfo, NoteK1;
    forall n: nat, m: MintState, query: Query | NoteK1(query).Some? ensures
      var id := env.spendOf(NoteK1(query).value);
      var info := ParseNoteInfo(env, service.onInfo(n, m, query).body, query, policy);
      info.Ok? && id.Some? && id.value in m.live ==> info.value.maxWithdrawable == m.live[id.value]
    {
      var k1 := NoteK1(query).value;
      var id := env.spendOf(k1);
      if id.Some? && id.value in m.live {
        TruthfulInfoIsBelieved(env, policy, callback, k1, m.live[id.value], query);
      }
    }
  }

  /** Asked of such a mint, a probe is exact: a note is live or gone, and
      unknown only where it could not be asked. */
  lemma ProbeIsExact(s: Setup, w: World, link: Link, k1: string)
    requires s.service.onInfo == TruthfulInfo(s.env, link.address) && NoteK1(link.query) == Some(k1)
    ensures ProbeBurnedNote(s, w, link) ==
            if s.config.offline || !s.env.allowed(link.address) then Unknown
            else if s.env.spendOf(k1).Some? && s.env.spendOf(k1).value in w.mint.live then Live
            else Gone
  {
    hide ParseNoteInfo, NoteK1, WithoutCertificates, Lower;
    if CanSend(s, link.address) {
      if s.env.spendOf(k1).Some? && s.env.spendOf(k1).value in w.mint.live {
        var info := TruthfulFetch(s, w, link, k1);
      } else {
        StrippedK1(link.query);
        UnknownNoteIsUnknown(s.env, link.query, s.config.policy);
      }
    }
  }

  lemma StrippedK1(query: Query)
    ensures NoteK1(WithoutCertificates(query)) == NoteK1(query)
  {
    StrippedReads(query);
  }

  lemma UnknownNoteIsUnknown(env: Env, query: Query, policy: Policy)
    ensures var r := ParseNoteInfo(env, Says("ERROR", "unknown note"), query, policy);
            r.Err? && (r.error.NoteSpent? || r.error.NoteUnknown?)
  {
    hide Lower, Trim, Contains;
    SaysMeans("unknown note");
    assert "" + "unknown" + " note" == "unknown note";
    LowerOfLower("unknown");
    DeadWordSaysDead("", "unknown", " note");
  }

  // ---- a mint that replays ----

  /** What the transport does to one exchange. */
  datatype Delivery = Dropped | AnswerLost | Delivered

  /** The certificates a mint issues for a call's outputs, if any. */
  type Issuer = Call -> (Option<string>, Option<string>)

  function Confirms(issued: (Option<string>, Option<string>)): Body {
    Says("OK", "").(c := issued.0, c2 := issued.1)
  }

  lemma ConfirmsMeans(issued: (Option<string>, Option<string>))
    ensures IsOk(Confirms(issued)) && !IsError(Confirms(issued))
  {
    SaysMeans("");
  }

  /** LUD-25's own mint: it applies what it can, answers a call it has already
      applied with the same OK and the same certificates, and refuses the rest
      as unknown. */
  function ReplayingMint(env: Env, transport: nat -> Delivery, issue: Issuer,
                         onInfo: (nat, MintState, Query) -> Answer)
    : Service
  {
    Service((n: nat, m: MintState, call: Call) =>
              var body := if call in m.applied || Applicable(env, m, call) then Confirms(issue(call))
                          else Says("ERROR", "unknown note");
              Fate(transport(n) != Dropped, true, if transport(n) == Delivered then Json(body) else Lost),
            onInfo)
  }

  /** It satisfies every hypothesis made of what a mint applies. */
  lemma ReplayingMintIsLawful(env: Env, transport: nat -> Delivery, issue: Issuer,
                              onInfo: (nat, MintState, Query) -> Answer)
    ensures Honest(env, ReplayingMint(env, transport, issue, onInfo))
    ensures RefusesOnlyAsDead(ReplayingMint(env, transport, issue, onInfo))
  {
    var service := ReplayingMint(env, transport, issue, onInfo);
    forall call: Call ensures IsOk(Confirms(issue(call))) && !IsError(Confirms(issue(call))) {
      ConfirmsMeans(issue(call));
    }
    SaysMeans("unknown note");
    forall n: nat, m: MintState, call: Call
      ensures var fate := service.onSend(n, m, call);
              fate.arrives && fate.answer.Json? ==>
                && (IsOk(fate.answer.body) ==> call in After(env, m, call, fate).applied)
                && (IsError(fate.answer.body) ==> After(env, m, call, fate) == m)
    {
      if Applicable(env, m, call) {
        assert Apply(env, m, call).applied == m.applied + [call];
        assert (m.applied + [call])[|m.applied|] == call;
      }
    }
  }

  /** Re-sending resolves the ambiguity: if any attempt the client makes is
      delivered and answered, the request is applied exactly once, and the run
      ends in success, or in Unverifiable with its secrets where the mint's
      own answer lacks a certificate it owes. */
  lemma {:induction false} ReplayResolves(s: Setup, w: World, before: MintState, request: Request,
                                          transport: nat -> Delivery,
                                          issue: Issuer, onInfo: (nat, MintState, Query) -> Answer, kind: MutationKind,
                                          retries: nat, at: nat)
    requires s.service == ReplayingMint(s.env, transport, issue, onInfo) && CanSend(s, request.callback)
    requires ValidMint(s.env, before) && Applicable(s.env, before, request.call) && request.call !in before.applied
    requires Reached(s.env, before, request.call, w.mint)
    requires w.sent <= at <= w.sent + retries && transport(at) == Delivered
    ensures var (w', r) := Mutate(s, w, request, kind, retries);
            var answer := ParseMutation(s.env, Confirms(issue(request.call)), kind, request.call.outputs,
                s.config.policy);
            && w'.mint == Apply(s.env, before, request.call)
            && r == if answer.Ok? then answer else Err(Unverifiable(request.newSecrets))
    decreases retries
  {
    hide Honest, RefusesOnlyAsDead, ValidMint, Applicable, Apply, ParseMutation;
    ReplayingMintIsLawful(s.env, transport, issue, onInfo);
    LandedIsRecorded(s.env, before, request.call, w.mint);
    AttemptStep(s, w, before, request, kind);
    ConfirmsMeans(issue(request.call));
    OnlyOkIsOk(s.env, Confirms(issue(request.call)), kind, request.call.outputs, s.config.policy);
    var (w', outcome) := Attempt(s, w, request, kind);
    if transport(w.sent) != Delivered {
      ReplayResolves(s, w', before, request, transport, issue, onInfo, kind, retries - 1, at);
    }
  }

  /** A mint that certifies what it mints is a success under every policy and
      to every output. */
  lemma CertifiedAnswersSucceed(env: Env, issued: (Option<string>, Option<string>), kind: MutationKind,
                                outputs: seq<string>, policy: Policy)
    requires NonEmpty(issued.0).Some? && NonEmpty(issued.1).Some?
    ensures ParseMutation(env, Confirms(issued), kind, outputs, policy)
         == Ok(MutationResponse(issued.0, issued.1, None, None))
  {
    ConfirmsMeans(issued);
    hide Lower, Trim;
  }

  /** So a client that may send, holding an outstanding note and a fresh secret
      it can name, rotates whenever any attempt gets through: the note is burned
      and the secret's is worth what it was. */
  lemma DeliveredRotateSucceeds(s: Setup, w: World, callback: string, k1: string, newK1: string,
                                transport: nat -> Delivery, issue: Issuer,
                                onInfo: (nat, MintState, Query) -> Answer, at: nat)
    requires s.service == ReplayingMint(s.env, transport, issue, onInfo)
    requires forall call :: NonEmpty(issue(call).0).Some? && NonEmpty(issue(call).1).Some?
    requires !s.config.offline && s.env.allowed(callback) && ValidMint(s.env, w.mint)
    requires s.env.spendOf(k1).Some? && s.env.spendOf(k1).value in w.mint.live
    requires Nameable(s.env, newK1) && WellMade(s.env, newK1) && Unseen(s.env, w.mint, newK1)
    requires w.sent <= at <= w.sent + s.config.mutationRetries && transport(at) == Delivered
    ensures var (w', r) := MergeNotes(s, w, Rotate, callback, [k1], newK1);
            r.Ok? && r.value.k1 == newK1 && MergedInto(s.env, w.mint, w'.mint, [k1], newK1)
  {
    var output := Trim(s.env.hash(newK1).value);
    var call := Call([k1], None, [output], None);
    var request := Request(callback, call, [newK1]);
    assert MergeRequest(s.env, callback, [k1], newK1) == Ok(request);
    var ids, made := [s.env.spendOf(k1).value], [s.env.noteOf(output).value];
    assert Fits(s.env, w.mint, call, ids, made);
    hide ValidMint, Applicable, Apply, Mutate, ReplayingMint, Fits, MergedInto, ParseMutation, WellMade, Unseen;
    ApplicableIff(s.env, w.mint, call);
    UnseenOutput(s.env, w.mint, newK1, call, 0);
    ReplayResolves(s, w, w.mint, request, transport, issue, onInfo, Rotate, s.config.mutationRetries, at);
    CertifiedAnswersSucceed(s.env, issue(call), Rotate, [output], s.config.policy);
    ReplayingMintIsLawful(s.env, transport, issue, onInfo);
    MergedIsWorthItsInputs(s, w, Rotate, callback, [k1], newK1);
  }

  // ---- a mint that does not replay ----

  /** It applies one send and loses the answer, and refuses every other
      without applying it. */
  function RefusingMint(at: nat, body: Body, onInfo: (nat, MintState, Query) -> Answer): Service {
    Service((n: nat, m: MintState, call: Call) => Fate(true, n == at, if n == at then Lost else Json(body)), onInfo)
  }

  lemma RefusingMintIsHonest(env: Env, at: nat, reason: string, onInfo: (nat, MintState, Query) -> Answer)
    ensures Honest(env, RefusingMint(at, Says("ERROR", reason), onInfo))
  {
    SaysMeans(reason);
  }

  /** The first attempt lands and its answer is lost; the re-send is refused,
      honestly, with a reason that is neither spent nor unknown. */
  ghost predicate RefusesBarely(s: Setup, w: World, call: Call, body: Body) {
    && Applicable(s.env, w.mint, call)
    && s.service.onSend(w.sent, w.mint, call) == Fate(true, true, Lost)
    && s.service.onSend(w.sent + 1, Apply(s.env, w.mint, call), call) == Fate(true, false, Json(body))
    && IsError(body) && ClassifyNoteError(Reason(body)).ServiceRejected?
  }

  /** lnurl-mint's older wording is such a reason. */
  function OlderMint(at: nat, onInfo: (nat, MintState, Query) -> Answer): Service {
    RefusingMint(at, Says("ERROR", OLDER_WORDING), onInfo)
  }

  lemma OlderMintRefusesBarely(s: Setup, w: World, call: Call, onInfo: (nat, MintState, Query) -> Answer)
    requires Applicable(s.env, w.mint, call) && s.service == OlderMint(w.sent, onInfo)
    ensures Honest(s.env, s.service) && RefusesBarely(s, w, call, Says("ERROR", OLDER_WORDING))
  {
    hide Honest, ClassifyNoteError, Applicable, Apply;
    RefusingMintIsHonest(s.env, w.sent, OLDER_WORDING, onInfo);
    OlderWordingIsBare();
    SaysMeans(OLDER_WORDING);
  }

  lemma LostThenRefused(s: Setup, w: World, request: Request, body: Body, kind: MutationKind, retries: nat)
    requires CanSend(s, request.callback) && retries > 0 && RefusesBarely(s, w, request.call, body)
    ensures Mutate(s, w, request, kind, retries)
         == (World(Apply(s.env, w.mint, request.call), w.sent + 2), Err(ClassifyNoteError(Reason(body))))
  {
    var landed := Apply(s.env, w.mint, request.call);
    hide Applicable, Apply, ClassifyNoteError;
    var w1 := World(landed, w.sent + 1);
    assert Attempt(s, w, request, kind) == (w1, Err(Ambiguous(request.newSecrets)));
    assert Attempt(s, w1, request, kind) == (World(landed, w.sent + 2), Err(ClassifyNoteError(Reason(body))));
    assert Mutate(s, w1, request, kind, retries - 1)
        == (World(landed, w.sent + 2), Err(ClassifyNoteError(Reason(body))));
  }

  lemma LandedEmptyHanded(env: Env, before: MintState, call: Call)
    requires Applicable(env, before, call) && call.pr.None?
    ensures !NothingOrphaned(env, before, call, Apply(env, before, call), [])
  {
    var outputs, after := Outputs(env, call).value, Apply(env, before, call);
    assert outputs[0] in outputs;
    assert outputs[0] in after.live && outputs[0] !in before.live;
  }

  /** Against that mint a mutation leaves its outputs outstanding and hands
      back no secret. */
  lemma OrphanedWithoutReplay(s: Setup, w: World, request: Request, kind: MutationKind, body: Body)
    requires CanSend(s, request.callback) && Retries(s, kind) > 0 && request.call.pr.None?
    requires RefusesBarely(s, w, request.call, body)
    ensures var (w', r) := Perform(s, w, Ok(request), kind);
            && w'.mint == Apply(s.env, w.mint, request.call)
            && r == Err(ClassifyNoteError(Reason(body))) && Held(r, request.newSecrets) == []
            && !NothingOrphaned(s.env, w.mint, request.call, w'.mint, Held(r, request.newSecrets))
  {
    LostThenRefused(s, w, request, body, kind, Retries(s, kind));
    LandedEmptyHanded(s.env, w.mint, request.call);
    hide Mutate, Apply, Applicable, ClassifyNoteError, NothingOrphaned;
  }

  // ---- exactly when nothing is orphaned without the rule ----

  /** A call the mint cannot apply changes nothing, however often it is sent. */
  lemma {:induction false} InapplicableChangesNothing(s: Setup, w: World, request: Request, kind: MutationKind,
                                                      retries: nat)
    requires !Applicable(s.env, w.mint, request.call)
    ensures Mutate(s, w, request, kind, retries).0.mint == w.mint
    decreases retries
  {
    hide Applicable;
    var (w', outcome) := Attempt(s, w, request, kind);
    if outcome.Err? && outcome.error.Ambiguous? && retries > 0 {
      InapplicableChangesNothing(s, w', request, kind, retries - 1);
    }
  }

  lemma SafeWithoutReplay(s: Setup, w: World, request: Request, kind: MutationKind)
    requires Honest(s.env, s.service) && ValidMint(s.env, w.mint) && request.call !in w.mint.applied
    requires request.call.pr.None? && SecretsOpen(s.env, request)
    requires Retries(s, kind) == 0 || !CanSend(s, request.callback) || !Applicable(s.env, w.mint, request.call)
    ensures var (w', r) := Perform(s, w, Ok(request), kind);
            NothingOrphaned(s.env, w.mint, request.call, w'.mint, Held(r, request.newSecrets))
  {
    if Retries(s, kind) == 0 {
      PerformIsSafe(s, w, request, kind);
    } else if !CanSend(s, request.callback) {
      RefusedUnsent(s, w, request, kind, Retries(s, kind));
    } else {
      InapplicableChangesNothing(s, w, request, kind, Retries(s, kind));
    }
  }

  /** The replay rule is needed exactly when the client retries: a rotate,
      merge or split is safe against every honest mint if it is sent at most
      once, and otherwise every one that can be sent and applied has an honest
      mint that orphans it. */
  lemma NothingOrphanedIff(env: Env, config: Config, w: World, request: Request, kind: MutationKind)
    requires !kind.Melt? && ValidMint(env, w.mint) && request.call !in w.mint.applied
    requires request.call.pr.None? && SecretsOpen(env, request)
    ensures (forall service: Service | Honest(env, service) ::
               var (w', r) := Perform(Setup(env, config, service), w, Ok(request), kind);
               NothingOrphaned(env, w.mint, request.call, w'.mint, Held(r, request.newSecrets)))
            <==> config.mutationRetries == 0 || config.offline || !env.allowed(request.callback)
                 || !Applicable(env, w.mint, request.call)
  {
    hide Honest, ValidMint, SecretsOpen, Applicable, NothingOrphaned, Perform, Held, RefusesBarely;
    var safe := config.mutationRetries == 0 || config.offline || !env.allowed(request.callback)
                || !Applicable(env, w.mint, request.call);
    if safe {
      forall service: Service | Honest(env, service)
        ensures var (w', r) := Perform(Setup(env, config, service), w, Ok(request), kind);
                NothingOrphaned(env, w.mint, request.call, w'.mint, Held(r, request.newSecrets))
      {
        SafeWithoutReplay(Setup(env, config, service), w, request, kind);
      }
    } else {
      var service := OlderMint(w.sent, TruthfulInfo(env, ""));
      var s := Setup(env, config, service);
      OlderMintRefusesBarely(s, w, request.call, TruthfulInfo(env, ""));
      OrphanedWithoutReplay(s, w, request, kind, Says("ERROR", OLDER_WORDING));
      assert Honest(env, service);
    }
  }

  // ---- exactly when a settled k1 is live without the rule ----

  /** What makes settling depend on replay: it can be retried, and the note it
      asks about is the one its rotate would burn. */
  predicate SettleAtRisk(env: Env, config: Config, w: World, base: Option<Link>, k1: string, newK1: string) {
    && config.mutationRetries > 0 && base.Some? && !config.offline && env.allowed(base.value.address)
    && IgnoresCase(env, k1)
    && var built := MergeRequest(env, base.value.address, [k1], newK1);
       built.Ok? && Applicable(env, w.mint, built.value.call)
  }

  lemma SpentIsNotLive(env: Env, m: MintState, call: Call)
    requires ValidMint(env, m) && Applicable(env, m, call)
    ensures call.k1s != [] && env.spendOf(call.k1s[0]).Some?
    ensures env.spendOf(call.k1s[0]).value !in Apply(env, m, call).live
  {
    var inputs := Inputs(env, call).value;
    ApplyKeepsAccounts(env, m, call);
    assert inputs[0] in inputs;
  }

  /** Settling against a mint that does not replay reports a burned k1 as
      settled. */
  lemma SettledBurnedWithoutReplay(s: Setup, w: World, base: Link, k1: string, expected: nat, signature: Option<string>,
                                   newK1: string, info: WithdrawInfo, request: Request, body: Body)
    requires var query := Rewrite(EditOf(s.env.codec, Some(k1), expected, signature), base.query);
             FetchNoteInfo(s, w, Link(base.address, query)) == Ok(info)
    requires MergeRequest(s.env, info.callback, [k1], newK1) == Ok(request) && CanSend(s, info.callback)
    requires s.config.mutationRetries > 0 && RefusesBarely(s, w, request.call, body)
    requires ValidMint(s.env, w.mint) && IgnoresCase(s.env, k1)
    ensures var (w', r) := SettleNote(s, w, Some(base), k1, expected, signature, newK1);
            r.Ok? && r.value.k1 == k1 && !Outstanding(s.env, w'.mint, k1)
  {
    hide Apply, Applicable, NothingOrphaned, FetchNoteInfo, Rewrite, EditOf, ValidMint, Lower, ClassifyNoteError,
         CanSend, Total, Perform;
    assert request.call.k1s == [k1] && request.call.pr.None? && request.callback == info.callback;
    hide MergeRequest;
    OrphanedWithoutReplay(s, w, request, Rotate, body);
    SpentIsNotLive(s.env, w.mint, request.call);
  }

  /** An honest mint and a truthful GET, against which settling goes wrong. */
  lemma SettleGoesWrong(env: Env, config: Config, w: World, base: Link, k1: string, expected: nat,
                        signature: Option<string>, newK1: string)
    returns (service: Service)
    requires ValidMint(env, w.mint) && expected <= U64_MAX
    requires SettleAtRisk(env, config, w, Some(base), k1, newK1)
    ensures Honest(env, service) && HonestInfo(env, service, config.policy)
    ensures var (w', r) := SettleNote(Setup(env, config, service), w, Some(base), k1, expected, signature, newK1);
            r.Ok? && !Outstanding(env, w'.mint, r.value.k1)
  {
    var onInfo := TruthfulInfo(env, base.address);
    service := OlderMint(w.sent, onInfo);
    var s := Setup(env, config, service);
    var request := MergeRequest(env, base.address, [k1], newK1).value;
    var query := Rewrite(EditOf(env.codec, Some(k1), expected, signature), base.query);
    NewNoteReadsBack(env.codec, base.query, k1, expected, signature);
    InputIsLive(env, w.mint, base.address, k1, newK1);
    hide Rewrite, EditOf, ValidMint, Applicable, Lower, NoteK1, HonestInfo, Honest, SettleNote, Outstanding;
    TruthfulInfoIsHonest(env, service, base.address, config.policy);
    OlderMintRefusesBarely(s, w, request.call, onInfo);
    var info := TruthfulFetch(s, w, Link(base.address, query), Lower(k1));
    LowerIdempotent(k1);
    SettledBurnedWithoutReplay(s, w, base, k1, expected, signature, newK1, info, request, Says("ERROR", OLDER_WORDING));
  }

  lemma InputIsLive(env: Env, m: MintState, callback: string, k1: string, newK1: string)
    requires MergeRequest(env, callback, [k1], newK1).Ok?
    requires Applicable(env, m, MergeRequest(env, callback, [k1], newK1).value.call)
    ensures env.spendOf(k1).Some? && env.spendOf(k1).value in m.live
  {
    var call := MergeRequest(env, callback, [k1], newK1).value.call;
    var inputs := Inputs(env, call).value;
    assert inputs[0] in inputs && call.k1s[0] == k1;
  }

  lemma TruthfulFetch(s: Setup, w: World, link: Link, k1: string) returns (info: WithdrawInfo)
    requires s.service.onInfo == TruthfulInfo(s.env, link.address) && CanSend(s, link.address)
    requires NoteK1(link.query) == Some(k1) && s.env.spendOf(k1).Some? && s.env.spendOf(k1).value in w.mint.live
    ensures FetchNoteInfo(s, w, link) == Ok(info) && info.callback == link.address
  {
    StrippedReads(link.query);
    assert NoteK1(WithoutCertificates(link.query)) == Some(k1);
    var value := w.mint.live[s.env.spendOf(k1).value];
    TruthfulInfoIsBelieved(s.env, s.config.policy, link.address, k1, value, link.query);
    hide ParseNoteInfo, Lower, NoteK1, WithoutCertificates;
    info := WithdrawInfo(link.address, Lower(k1), value, 0);
    assert s.service.onInfo(w.sent, w.mint, WithoutCertificates(link.query))
        == Json(WithdrawBody(link.address, k1, value));
  }

  lemma OtherNoteStaysLive(env: Env, m: MintState, call: Call, id: Id)
    requires ValidMint(env, m) && Applicable(env, m, call) && call.pr.None? && |call.k1s| == 1
    requires id in m.live && env.spendOf(call.k1s[0]) != Some(id)
    ensures id in Apply(env, m, call).live
  {
    var inputs := Inputs(env, call).value;
    assert inputs == [inputs[0]] && env.spendOf(call.k1s[0]) == Some(inputs[0]);
  }

  /** What a settle makes of its rotate leaves it a live k1. */
  ghost predicate SettlesLive(env: Env, m: MintState, k1: string, newK1: string, r: Result<RotateOutcome, Error>) {
    && (r.Ok? ==> r.value.k1 == newK1 && Outstanding(env, m, newK1))
    && (r.Err? && (r.error.ServiceRejected? || r.error.NotePending? || r.error.RequestRefused?) ==>
        Outstanding(env, m, k1))
  }

  lemma LandedOutputIsLive(env: Env, before: MintState, request: Request, secret: string)
    requires Applicable(env, before, request.call) && request.call.pr.None? && |request.call.outputs| == 1
    requires Lower(secret) == secret && env.spendOf(secret) == env.noteOf(request.call.outputs[0])
    ensures Outstanding(env, Apply(env, before, request.call), secret)
  {
    var outputs := Outputs(env, request.call).value;
    assert outputs[0] in Apply(env, before, request.call).live;
  }

  /** A rotate that is sent, made where settling is not at risk. */
  lemma SentRotateNotAtRisk(s: Setup, w: World, request: Request, k1: string, newK1: string)
    requires Honest(s.env, s.service) && ValidMint(s.env, w.mint) && request.call !in w.mint.applied
    requires CanSend(s, request.callback) && request.newSecrets == [newK1]
    requires request.call.k1s == [k1] && |request.call.outputs| == 1 && request.call.pr.None?
    requires Lower(newK1) == newK1 && s.env.spendOf(newK1) == s.env.noteOf(request.call.outputs[0])
    requires Outstanding(s.env, w.mint, k1)
    requires Retries(s, Rotate) == 0 || !Applicable(s.env, w.mint, request.call) || !IgnoresCase(s.env, k1)
    ensures var (w', r) := Mutate(s, w, request, Rotate, Retries(s, Rotate));
            SettlesLive(s.env, w'.mint, k1, newK1,
                        if r.Err? then Err(r.error) else Ok(RotateOutcome(newK1, r.value.signature)))
  {
    hide ValidMint, Honest, Mutate, Applicable, Apply;
    MutateReaches(s, w, w.mint, request, Rotate, Retries(s, Rotate));
    var (w', r) := Mutate(s, w, request, Rotate, Retries(s, Rotate));
    if Landed(s.env, w.mint, request.call, w'.mint) {
      LandedOutputIsLive(s.env, w.mint, request, newK1);
      if Retries(s, Rotate) == 0 {
        MutateOutcome(s, w, w.mint, request, Rotate, 0);
      } else {
        OtherNoteStaysLive(s.env, w.mint, request.call, s.env.spendOf(Lower(k1)).value);
      }
    }
  }

  lemma RotateNotAtRisk(s: Setup, w: World, base: Link, callback: string, k1: string, newK1: string)
    requires Honest(s.env, s.service) && ValidMint(s.env, w.mint) && CanSend(s, base.address)
    requires WellMade(s.env, newK1) && Unseen(s.env, w.mint, newK1) && Lower(newK1) == newK1
    requires Outstanding(s.env, w.mint, k1) && !SettleAtRisk(s.env, s.config, w, Some(base), k1, newK1)
    ensures var (w', r) := MergeNotes(s, w, Rotate, callback, [k1], newK1);
            SettlesLive(s.env, w'.mint, k1, newK1, r)
  {
    hide ValidMint, Honest, Applicable, Outstanding, Mutate;
    var built := MergeRequest(s.env, callback, [k1], newK1);
    if built.Ok? {
      UnseenIsUnapplied(s.env, w.mint, built.value.call, 0);
      SentRotateNotAtRisk(s, w, built.value, k1, newK1);
    }
  }

  lemma SettleNotAtRisk(s: Setup, w: World, base: Option<Link>, k1: string, expected: nat, signature: Option<string>,
                        newK1: string)
    requires Honest(s.env, s.service) && HonestInfo(s.env, s.service, s.config.policy)
    requires ValidMint(s.env, w.mint) && expected <= U64_MAX
    requires WellMade(s.env, newK1) && Unseen(s.env, w.mint, newK1) && Lower(newK1) == newK1
    requires !SettleAtRisk(s.env, s.config, w, base, k1, newK1)
    ensures var (w', r) := SettleNote(s, w, base, k1, expected, signature, newK1);
            r.Ok? ==> Outstanding(s.env, w'.mint, r.value.k1)
  {
    hide Honest, HonestInfo, ValidMint, WellMade, Unseen, SettleAtRisk, MergeNotes, Rewrite, EditOf, Lower;
    if base.Some? {
      var query := Rewrite(EditOf(s.env.codec, Some(k1), expected, signature), base.value.query);
      NewNoteReadsBack(s.env.codec, base.value.query, k1, expected, signature);
      var link := Link(base.value.address, query);
      FetchedIsLive(s, w, link);
      var info := FetchNoteInfo(s, w, link);
      if info.Ok? {
        RotateNotAtRisk(s, w, base.value, info.value.callback, k1, newK1);
        var (w', rotated) := MergeNotes(s, w, Rotate, info.value.callback, [k1], newK1);
        var (w'', r) := SettleNote(s, w, base, k1, expected, signature, newK1);
        assert w'' == w';
        assert SettlesLive(s.env, w'.mint, k1, newK1, rotated);
        assert r.Ok? ==> (rotated.Ok? && r.value.k1 == rotated.value.k1) || (rotated.Err? && r.value.k1 == k1);
      }
    }
  }

  /** Settling needs the replay rule exactly when it is at risk: then some
      honest mint with a truthful GET has it return a burned k1, and otherwise
      none can. */
  lemma SettledIsLiveIff(env: Env, config: Config, w: World, base: Option<Link>, k1: string, expected: nat,
                         signature: Option<string>, newK1: string)
    requires ValidMint(env, w.mint) && expected <= U64_MAX
    requires WellMade(env, newK1) && Unseen(env, w.mint, newK1) && Lower(newK1) == newK1
    ensures (forall service: Service | Honest(env, service) && HonestInfo(env, service, config.policy) ::
               var (w', r) := SettleNote(Setup(env, config, service), w, base, k1, expected, signature, newK1);
               r.Ok? ==> Outstanding(env, w'.mint, r.value.k1))
            <==> !SettleAtRisk(env, config, w, base, k1, newK1)
  {
    if SettleAtRisk(env, config, w, base, k1, newK1) {
      var service := SettleGoesWrong(env, config, w, base.value, k1, expected, signature, newK1);
    } else {
      forall service: Service | Honest(env, service) && HonestInfo(env, service, config.policy)
        ensures var (w', r) := SettleNote(Setup(env, config, service), w, base, k1, expected, signature, newK1);
                r.Ok? ==> Outstanding(env, w'.mint, r.value.k1)
      {
        SettleNotAtRisk(Setup(env, config, service), w, base, k1, expected, signature, newK1);
      }
    }
  }
}
