// The client (src/client.rs): one exchange, the retry loop around it, and the
// operations built on both, against any mint and any transport.

module Client {
  import opened Wrappers
  import opened Errors
  import opened Protocol
  import opened Mint
  import opened NoteUrl

  datatype Config = Config(offline: bool, policy: Policy, mutationRetries: nat)

  /** The remote state: the mint's notes, and how many sends have been made. */
  datatype World = World(mint: MintState, sent: nat)

  /** Everything a run is made of but its state. */
  datatype Setup = Setup(env: Env, config: Config, service: Service)

  // ---- specification: one exchange ----

  predicate CanSend(s: Setup, address: string) {
    !s.config.offline && s.env.allowed(address)
  }

  function AfterSend(s: Setup, w: World, call: Call): World {
    World(After(s.env, w.mint, call, s.service.onSend(w.sent, w.mint, call)), w.sent + 1)
  }

  function ReadAnswer(answer: Answer, secrets: seq<string>): Result<Body, Error> {
    if answer.Json? then Ok(answer.body) else Err(Ambiguous(secrets))
  }

  /** `run` followed by `parse_mutation`. */
  function Attempt(s: Setup, w: World, request: Request, kind: MutationKind): (World, Result<MutationResponse, Error>) {
    if !CanSend(s, request.callback) then (w, Err(RequestRefused))
    else
      var answer := Reply(s.service.onSend(w.sent, w.mint, request.call));
      var body := ReadAnswer(answer, request.newSecrets);
      (AfterSend(s, w, request.call),
       if body.Err? then Err(body.error)
       else ParseMutation(s.env, body.value, kind, request.call.outputs, s.config.policy))
  }

  /** `run_mutation` with `retries` attempts left after the first. */
  function Mutate(s: Setup, w: World, request: Request, kind: MutationKind, retries: nat)
    : (World, Result<MutationResponse, Error>)
    decreases retries
  {
    var (w', outcome) := Attempt(s, w, request, kind);
    if outcome.Ok? then (w', outcome)
    else if outcome.error.Ambiguous? && retries > 0 then Mutate(s, w', request, kind, retries - 1)
    else (w', Err(WithSecrets(outcome.error, request.newSecrets)))
  }

  function Retries(s: Setup, kind: MutationKind): nat {
    if kind.Melt? then 0 else s.config.mutationRetries
  }

  function Perform(s: Setup, w: World, built: Result<Request, Error>, kind: MutationKind)
    : (World, Result<MutationResponse, Error>)
  {
    if built.Err? then (w, Err(built.error)) else Mutate(s, w, built.value, kind, Retries(s, kind))
  }

  // ---- specification: the operations ----

  datatype RotateOutcome = RotateOutcome(k1: string, signature: Option<string>)
  datatype SplitOutcome = SplitOutcome(k1: string, change: string, signature: Option<string>,
                                       changeSignature: Option<string>)
  datatype MeltOutcome = MeltOutcome(pr: Option<string>, verify: Option<string>)
  datatype SettledNote = SettledNote(k1: string, amountMsat: nat, signature: Option<string>, callback: string)
  datatype NoteFate = Live | Gone | Unknown

  function MergeNotes(s: Setup, w: World, kind: MutationKind, callback: string, k1s: seq<string>, newK1: string)
    : (World, Result<RotateOutcome, Error>)
  {
    var (w', r) := Perform(s, w, MergeRequest(s.env, callback, k1s, newK1), kind);
    (w', if r.Err? then Err(r.error) else Ok(RotateOutcome(newK1, r.value.signature)))
  }

  function SplitNote(s: Setup, w: World, callback: string, k1s: seq<string>, amount: nat, newK1: string, change: string)
    : (World, Result<SplitOutcome, Error>)
  {
    var (w', r) := Perform(s, w, SplitRequest(s.env, callback, k1s, amount, newK1, change), Split);
    (w', if r.Err? then Err(r.error) else Ok(SplitOutcome(newK1, change, r.value.signature, r.value.changeSignature)))
  }

  function MeltNote(s: Setup, w: World, callback: string, k1: string, pr: string): (World, Result<MeltOutcome, Error>) {
    var (w', r) := Perform(s, w, MeltRequest(s.env, callback, k1, pr), Melt);
    (w', if r.Err? then Err(r.error) else Ok(MeltOutcome(r.value.pr, r.value.verify)))
  }

  /** A note URL: an address and its query. */
  datatype Link = Link(address: string, query: Query)

  /** `note_info_request` keeps the certificate off the wire. */
  function WithoutCertificates(query: Query): Query {
    if query == [] then []
    else (if IsCertificate(query[0].0) then [] else [query[0]]) + WithoutCertificates(query[1..])
  }

  /** What is asked of the mint is the query without its `c` and `sig` pairs,
      wherever they stand. */
  lemma {:induction false} StrippedOf(a: Query, pair: (string, string), b: Query)
    ensures WithoutCertificates(a + [pair] + b) ==
            WithoutCertificates(a) + (if pair.0 == "c" || pair.0 == "sig" then [] else [pair]) + WithoutCertificates(b)
  {
    var query := a + [pair] + b;
    if a == [] {
      assert query[0] == pair && query[1..] == b;
    } else {
      assert query[0] == a[0] && query[1..] == a[1..] + [pair] + b;
      StrippedOf(a[1..], pair, b);
    }
  }

  function FetchNoteInfo(s: Setup, w: World, link: Link): Result<WithdrawInfo, Error> {
    if !CanSend(s, link.address) then Err(RequestRefused)
    else
      var answer := s.service.onInfo(w.sent, w.mint, WithoutCertificates(link.query));
      var body :- ReadAnswer(answer, []);
      ParseNoteInfo(s.env, body, link.query, s.config.policy)
  }

  function ProbeBurnedNote(s: Setup, w: World, link: Link): NoteFate {
    var info := FetchNoteInfo(s, w, link);
    if info.Ok? then Live
    else if info.error.NoteSpent? || info.error.NoteUnknown? then Gone
    else Unknown
  }

  function SettleNote(s: Setup, w: World, base: Option<Link>, k1: string, expected: nat, signature: Option<string>,
                      newK1: string)
    : (World, Result<SettledNote, Error>)
  {
    if base.None? then (w, Err(RequestRefused))
    else
      var query := Rewrite(EditOf(s.env.codec, Some(k1), expected, signature), base.value.query);
      var info := FetchNoteInfo(s, w, Link(base.value.address, query));
      if info.Err? then (w, Err(info.error))
      else
        var (w', rotated) := MergeNotes(s, w, Rotate, info.value.callback, [k1], newK1);
        (w',
         if rotated.Ok? then
           Ok(SettledNote(rotated.value.k1, info.value.maxWithdrawable, rotated.value.signature, info.value.callback))
         else if rotated.error.RequestRefused? || rotated.error.ServiceRejected? || rotated.error.NotePending? then
           Ok(SettledNote(k1, info.value.maxWithdrawable, signature, info.value.callback))
         else Err(rotated.error))
  }

  // ---- the client itself ----

  /** The far side: a mint behind a transport, changed by every send. */
  class Remote {
    const env: Env
    const service: Service
    var world: World

    constructor (env: Env, service: Service, world: World)
      ensures this.env == env && this.service == service && this.world == world
    {
      this.env, this.service, this.world := env, service, world;
    }

    method Send(call: Call) returns (answer: Answer)
      modifies this
      ensures answer == Reply(service.onSend(old(world).sent, old(world).mint, call))
      ensures world == World(After(env, old(world).mint, call, service.onSend(old(world).sent, old(world).mint, call)),
                             old(world).sent + 1)
    {
      var fate := service.onSend(world.sent, world.mint, call);
      answer := Reply(fate);
      world := World(After(env, world.mint, call, fate), world.sent + 1);
    }

    method Info(query: Query) returns (answer: Answer)
      ensures answer == service.onInfo(world.sent, world.mint, query)
    {
      answer := service.onInfo(world.sent, world.mint, query);
    }
  }

  class HttpClient {
    const config: Config
    const remote: Remote

    ghost function Us(): Setup {
      Setup(remote.env, config, remote.service)
    }

    constructor (config: Config, remote: Remote)
      ensures this.config == config && this.remote == remote
    {
      this.config, this.remote := config, remote;
    }

    method Run(request: Request) returns (body: Result<Body, Error>)
      modifies remote
      ensures !CanSend(Us(), request.callback) ==> body == Err(RequestRefused) && remote.world == old(remote.world)
      ensures CanSend(Us(), request.callback) ==>
                && body == ReadAnswer(
                     Reply(remote.service.onSend(old(remote.world).sent, old(remote.world).mint, request.call)),
                     request.newSecrets)
                && remote.world == AfterSend(Us(), old(remote.world), request.call)
    {
      if config.offline || !remote.env.allowed(request.callback) {
        return Err(RequestRefused);
      }
      var answer := remote.Send(request.call);
      return ReadAnswer(answer, request.newSecrets);
    }

    /** Re-sends the identical request while the answer is ambiguous. */
    method RunMutation(request: Request, kind: MutationKind) returns (r: Result<MutationResponse, Error>)
      modifies remote
      ensures (remote.world, r) == Mutate(Us(), old(remote.world), request, kind, Retries(Us(), kind))
    {
      var attempts := if kind.Melt? then 0 else config.mutationRetries;
      ghost var whole := Mutate(Us(), remote.world, request, kind, attempts);
      var last: Option<Error> := None;
      for i := 0 to attempts + 1
        invariant i <= attempts ==> whole == Mutate(Us(), remote.world, request, kind, attempts - i)
        invariant i == attempts + 1 ==>
            last.Some? && whole == (remote.world, Err(WithSecrets(last.value, request.newSecrets)))
      {
        ghost var before := remote.world;
        var body := Run(request);
        var outcome: Result<MutationResponse, Error> :=
          if body.Err? then Err(body.error)
          else ParseMutation(remote.env, body.value, kind, request.call.outputs, config.policy);
        assert (remote.world, outcome) == Attempt(Us(), before, request, kind);
        if outcome.Ok? {
          return outcome;
        }
        if !outcome.error.Ambiguous? {
          return Err(WithSecrets(outcome.error, request.newSecrets));
        }
        last := Some(outcome.error);
      }
      return Err(WithSecrets(last.value, request.newSecrets));
    }

    method RotateNote(callback: string, k1: string, newK1: string) returns (r: Result<RotateOutcome, Error>)
      modifies remote
      ensures (remote.world, r) == MergeNotes(Us(), old(remote.world), Rotate, callback, [k1], newK1)
    {
      var built := MergeRequest(remote.env, callback, [k1], newK1);
      if built.Err? {
        return Err(built.error);
      }
      var response := RunMutation(built.value, Rotate);
      if response.Err? {
        return Err(response.error);
      }
      return Ok(RotateOutcome(newK1, response.value.signature));
    }

    method MergeAll(callback: string, k1s: seq<string>, newK1: string) returns (r: Result<RotateOutcome, Error>)
      modifies remote
      ensures (remote.world, r) == MergeNotes(Us(), old(remote.world), Merge, callback, k1s, newK1)
    {
      var built := MergeRequest(remote.env, callback, k1s, newK1);
      if built.Err? {
        return Err(built.error);
      }
      var response := RunMutation(built.value, Merge);
      if response.Err? {
        return Err(response.error);
      }
      return Ok(RotateOutcome(newK1, response.value.signature));
    }

    method Split(callback: string, k1s: seq<string>, amount: nat, newK1: string, change: string)
      returns (r: Result<SplitOutcome, Error>)
      modifies remote
      ensures (remote.world, r) == SplitNote(Us(), old(remote.world), callback, k1s, amount, newK1, change)
    {
      var built := SplitRequest(remote.env, callback, k1s, amount, newK1, change);
      if built.Err? {
        return Err(built.error);
      }
      var response := RunMutation(built.value, MutationKind.Split);
      if response.Err? {
        return Err(response.error);
      }
      return Ok(SplitOutcome(newK1, change, response.value.signature, response.value.changeSignature));
    }

    method Melt(callback: string, k1: string, pr: string) returns (r: Result<MeltOutcome, Error>)
      modifies remote
      ensures (remote.world, r) == MeltNote(Us(), old(remote.world), callback, k1, pr)
    {
      var built := MeltRequest(remote.env, callback, k1, pr);
      if built.Err? {
        return Err(built.error);
      }
      var response := RunMutation(built.value, MutationKind.Melt);
      if response.Err? {
        return Err(response.error);
      }
      return Ok(MeltOutcome(response.value.pr, response.value.verify));
    }

    method Fetch(link: Link) returns (info: Result<WithdrawInfo, Error>)
      ensures info == FetchNoteInfo(Us(), remote.world, link)
    {
      if config.offline || !remote.env.allowed(link.address) {
        return Err(RequestRefused);
      }
      var answer := remote.Info(WithoutCertificates(link.query));
      var body := ReadAnswer(answer, []);
      if body.Err? {
        return Err(body.error);
      }
      return ParseNoteInfo(remote.env, body.value, link.query, config.policy);
    }

    method Probe(link: Link) returns (fate: NoteFate)
      ensures fate == ProbeBurnedNote(Us(), remote.world, link)
    {
      var info := Fetch(link);
      if info.Ok? {
        return Live;
      }
      if info.error.NoteSpent? || info.error.NoteUnknown? {
        return Gone;
      }
      return Unknown;
    }

    /** `settle_note`: an informational GET that exposes k1, then a rotate
        whose refusal is forgiven only where it burned nothing. */
    method Settle(base: Option<Link>, k1: string, expected: nat, signature: Option<string>, newK1: string)
      returns (r: Result<SettledNote, Error>)
      modifies remote
      ensures (remote.world, r) == SettleNote(Us(), old(remote.world), base, k1, expected, signature, newK1)
    {
      if base.None? {
        return Err(RequestRefused);
      }
      var query := WithNewK1(remote.env.codec, base.value.query, k1, expected, signature);
      var info := Fetch(Link(base.value.address, query));
      if info.Err? {
        return Err(info.error);
      }
      var rotated := RotateNote(info.value.callback, k1, newK1);
      match rotated
      case Ok(note) =>
        return Ok(SettledNote(note.k1, info.value.maxWithdrawable, note.signature, info.value.callback));
      case Err(RequestRefused) =>
        return Ok(SettledNote(k1, info.value.maxWithdrawable, signature, info.value.callback));
      case Err(ServiceRejected(_)) =>
        return Ok(SettledNote(k1, info.value.maxWithdrawable, signature, info.value.callback));
      case Err(NotePending) =>
        return Ok(SettledNote(k1, info.value.maxWithdrawable, signature, info.value.callback));
      case Err(other) =>
        return Err(other);
    }
  }
}
