// The SERVICE as a client meets it (src/client.rs): notes outstanding and
// burned, the mutations it has applied, and a transport that may lose either
// half of an exchange.

module Mint {
  import opened Wrappers
  import opened Errors
  import opened Protocol
  import opened NoteUrl

  /** Outstanding notes and their value, burned notes, notes a melt is paying
      out, and every mutation applied, in order. */
  datatype MintState = MintState(live: map<Id, nat>, burned: set<Id>, inFlight: map<Id, nat>, applied: seq<Call>)

  predicate Known(m: MintState, id: Id) {
    id in m.live || id in m.burned || id in m.inFlight
  }

  predicate Distinct<T(==)>(s: seq<T>) {
    forall i, j | 0 <= i < j < |s| :: s[i] != s[j]
  }

  function Ids(name: string -> Option<Id>, values: seq<string>): (r: Option<seq<Id>>)
    ensures r.Some? ==> |r.value| == |values| && forall i | 0 <= i < |values| :: name(values[i]) == Some(r.value[i])
  {
    if values == [] then Some([])
    else
      var first :- name(values[0]);
      var rest :- Ids(name, values[1..]);
      Some([first] + rest)
  }

  function Inputs(env: Env, call: Call): Option<seq<Id>> {
    Ids(env.spendOf, call.k1s)
  }

  function Outputs(env: Env, call: Call): Option<seq<Id>> {
    Ids(env.noteOf, call.outputs)
  }

  function SumOf(live: map<Id, nat>, ids: seq<Id>): nat
    requires forall id | id in ids :: id in live
  {
    if ids == [] then 0 else live[ids[0]] + SumOf(live, ids[1..])
  }

  predicate WellShaped(call: Call) {
    if call.pr.Some? then |call.k1s| == 1 && call.outputs == [] && call.amount.None?
    else if call.amount.Some? then |call.outputs| == 2
    else |call.outputs| == 1
  }

  /** Whether the mint can apply a call: its inputs are distinct outstanding
      notes, its outputs distinct and never seen, and a split fits. */
  predicate Applicable(env: Env, m: MintState, call: Call) {
    var inputs, outputs := Inputs(env, call), Outputs(env, call);
    && WellShaped(call) && inputs.Some? && outputs.Some? && inputs.value != []
    && Distinct(inputs.value) && Distinct(outputs.value)
    && (forall id | id in inputs.value :: id in m.live)
    && (forall id | id in outputs.value :: !Known(m, id))
    && (call.amount.Some? ==> call.amount.value <= SumOf(m.live, inputs.value))
  }

  lemma {:induction false} IdsAre(name: string -> Option<Id>, values: seq<string>, ids: seq<Id>)
    requires |ids| == |values| && forall i | 0 <= i < |ids| :: name(values[i]) == Some(ids[i])
    ensures Ids(name, values) == Some(ids)
  {
    if values != [] {
      assert name(values[0]) == Some(ids[0]);
      IdsAre(name, values[1..], ids[1..]);
      assert ids == [ids[0]] + ids[1..];
    }
  }

  /** These notes are what the k1s open and the outputs name: every k1 its own
      outstanding note, every output its own note never seen, and a split of no
      more than they are worth. */
  predicate Fits(env: Env, m: MintState, call: Call, ids: seq<Id>, made: seq<Id>) {
    && |ids| == |call.k1s| > 0 && |made| == |call.outputs|
    && (forall i | 0 <= i < |ids| :: env.spendOf(call.k1s[i]) == Some(ids[i]) && ids[i] in m.live)
    && (forall i | 0 <= i < |made| :: env.noteOf(call.outputs[i]) == Some(made[i]) && !Known(m, made[i]))
    && (forall i, j | 0 <= i < j < |ids| :: ids[i] != ids[j])
    && (forall i, j | 0 <= i < j < |made| :: made[i] != made[j])
    && (call.amount.Some? ==> call.amount.value <= SumOf(m.live, ids))
  }

  lemma ApplicableIff(env: Env, m: MintState, call: Call)
    ensures Applicable(env, m, call) <==>
              WellShaped(call) && exists ids: seq<Id>, made: seq<Id> :: Fits(env, m, call, ids, made)
  {
    if Applicable(env, m, call) {
      var ids, made := Inputs(env, call).value, Outputs(env, call).value;
      assert forall i | 0 <= i < |ids| :: ids[i] in ids;
      assert forall i | 0 <= i < |made| :: made[i] in made;
      assert Fits(env, m, call, ids, made);
    }
    if ids: seq<Id>, made: seq<Id> :| Fits(env, m, call, ids, made) {
      IdsAre(env.spendOf, call.k1s, ids);
      IdsAre(env.noteOf, call.outputs, made);
    }
  }

  function Without(live: map<Id, nat>, ids: seq<Id>): map<Id, nat> {
    map id | id in live && id !in ids :: live[id]
  }

  /** The inputs burn, and the outputs are worth exactly what they were. */
  function Apply(env: Env, m: MintState, call: Call): MintState
    requires Applicable(env, m, call)
  {
    var inputs, outputs := Inputs(env, call).value, Outputs(env, call).value;
    var total, rest := SumOf(m.live, inputs), Without(m.live, inputs);
    if call.pr.Some? then
      m.(live := rest, inFlight := m.inFlight[inputs[0] := total], applied := m.applied + [call])
    else
      var live := if call.amount.Some?
                  then rest[outputs[0] := call.amount.value][outputs[1] := total - call.amount.value]
                  else rest[outputs[0] := total];
      m.(live := live, burned := m.burned + (set id | id in inputs), applied := m.applied + [call])
  }

  // ---- one exchange ----

  datatype Answer = Lost | Unreadable | Json(body: Body)

  /** What becomes of one send: whether it arrives, whether the mint will
      apply it, and what comes back. */
  datatype Fate = Fate(arrives: bool, willing: bool, answer: Answer)

  /** Any behaviour of mint and transport, chosen per send from everything
      that has happened. */
  datatype Service = Service(onSend: (nat, MintState, Call) -> Fate, onInfo: (nat, MintState, Query) -> Answer)

  function After(env: Env, m: MintState, call: Call, fate: Fate): MintState {
    if fate.arrives && fate.willing && Applicable(env, m, call) then Apply(env, m, call) else m
  }

  function Reply(fate: Fate): Answer {
    if fate.arrives then fate.answer else Lost
  }

  /** The mint means what it says: OK only for a call it has applied, ERROR
      only to a send that applied nothing. */
  ghost predicate Honest(env: Env, service: Service) {
    forall n: nat, m: MintState, call: Call ::
      var fate := service.onSend(n, m, call);
      fate.arrives && fate.answer.Json? ==>
        && (IsOk(fate.answer.body) ==> call in After(env, m, call, fate).applied)
        && (IsError(fate.answer.body) ==> After(env, m, call, fate) == m)
  }

  /** Having applied a call, it never refuses a re-send but as a dead note:
      it replays, or answers with a reason classified as spent or unknown. */
  ghost predicate RefusesOnlyAsDead(service: Service) {
    forall n: nat, m: MintState, call: Call ::
      var fate := service.onSend(n, m, call);
      fate.arrives && fate.answer.Json? && IsError(fate.answer.body) && call in m.applied ==>
        SaysDead(Reason(fate.answer.body))
  }

  /** An informational GET tells the truth about the note it was asked for. */
  ghost predicate HonestInfo(env: Env, service: Service, policy: Policy) {
    forall n: nat, m: MintState, query: Query ::
      var answer := service.onInfo(n, m, query);
      answer.Json? && NoteK1(query).Some? ==>
        var info := ParseNoteInfo(env, answer.body, query, policy);
        var id := env.spendOf(NoteK1(query).value);
        && (info.Ok? ==> id.Some? && id.value in m.live)
        && (info.Err? && (info.error.NoteSpent? || info.error.NoteUnknown?) ==> id.Some? ==> id.value !in m.live)
  }

  // ---- what every mint keeps ----

  /** Outstanding, burned and in-flight notes never overlap, and whatever an
      applied call spent or minted is accounted for. */
  ghost predicate ValidMint(env: Env, m: MintState) {
    && m.live.Keys !! m.burned && m.live.Keys !! m.inFlight.Keys && m.burned !! m.inFlight.Keys
    && Distinct(m.applied)
    && forall call | call in m.applied ::
         && Inputs(env, call).Some? && Inputs(env, call).value != [] && Outputs(env, call).Some?
         && (forall id | id in Inputs(env, call).value :: id in m.burned || id in m.inFlight)
         && (forall id | id in Outputs(env, call).value :: Known(m, id))
  }

  /** No applied call can apply again: its inputs are gone for good. */
  lemma AppliedIsNotApplicable(env: Env, m: MintState, call: Call)
    requires ValidMint(env, m) && call in m.applied
    ensures !Applicable(env, m, call)
  {
    var inputs := Inputs(env, call).value;
    assert inputs[0] in inputs;
  }

  lemma ApplyKeepsAccounts(env: Env, m: MintState, call: Call)
    requires ValidMint(env, m) && Applicable(env, m, call)
    ensures var m' := Apply(env, m, call);
            && m'.live.Keys !! m'.burned && m'.live.Keys !! m'.inFlight.Keys && m'.burned !! m'.inFlight.Keys
            && (forall id | Known(m, id) :: Known(m', id))
            && (forall id | id in m.burned || id in m.inFlight :: id in m'.burned || id in m'.inFlight)
            && (forall id | id in Inputs(env, call).value :: id in m'.burned || id in m'.inFlight)
            && (forall id | id in Outputs(env, call).value :: Known(m', id))
  {
    var inputs, outputs := Inputs(env, call).value, Outputs(env, call).value;
    assert call.pr.Some? ==> inputs == [inputs[0]];
    assert call.pr.None? ==> outputs[0] in outputs;
    assert call.amount.Some? ==> outputs[1] in outputs;
  }

  /** Applying keeps every account of the mint. */
  lemma ApplyKeepsValid(env: Env, m: MintState, call: Call)
    requires ValidMint(env, m) && Applicable(env, m, call)
    ensures ValidMint(env, Apply(env, m, call))
  {
    ApplyKeepsAccounts(env, m, call);
    if call in m.applied {
      AppliedIsNotApplicable(env, m, call);
    }
    assert Apply(env, m, call).applied == m.applied + [call];
  }

  // ---- value ----

  ghost function Total(live: map<Id, nat>): nat
    decreases |live|
  {
    if live == map[] then 0
    else
      var id :| id in live;
      live[id] + Total(live - {id})
  }

  lemma {:induction false} TotalRemove(live: map<Id, nat>, id: Id)
    requires id in live
    ensures Total(live) == live[id] + Total(live - {id})
    decreases |live|
  {
    var first :| first in live && Total(live) == live[first] + Total(live - {first});
    if first != id {
      TotalRemove(live - {first}, id);
      TotalRemove(live - {id}, first);
      assert live - {first} - {id} == live - {id} - {first};
    }
  }

  lemma TotalAdd(live: map<Id, nat>, id: Id, value: nat)
    requires id !in live
    ensures Total(live[id := value]) == Total(live) + value
  {
    TotalRemove(live[id := value], id);
    assert live[id := value] - {id} == live;
  }

  lemma {:induction false} SumUnchanged(a: map<Id, nat>, b: map<Id, nat>, ids: seq<Id>)
    requires forall id | id in ids :: id in a && id in b && a[id] == b[id]
    ensures SumOf(a, ids) == SumOf(b, ids)
  {
    if ids != [] { SumUnchanged(a, b, ids[1..]); }
  }

  lemma {:induction false} TotalWithout(live: map<Id, nat>, ids: seq<Id>)
    requires Distinct(ids) && forall id | id in ids :: id in live
    ensures Total(live) == Total(Without(live, ids)) + SumOf(live, ids)
  {
    if ids == [] {
      assert Without(live, ids) == live;
    } else {
      var rest := live - {ids[0]};
      TotalRemove(live, ids[0]);
      forall id | id in ids[1..] ensures id in rest {
        var k :| 0 <= k < |ids[1..]| && ids[1..][k] == id;
        assert ids[k + 1] == id != ids[0];
      }
      TotalWithout(rest, ids[1..]);
      SumUnchanged(live, rest, ids[1..]);
      assert Without(live, ids) == Without(rest, ids[1..]) by {
        assert forall id :: id in ids <==> id == ids[0] || id in ids[1..];
      }
    }
  }

  /** A rotate, split or merge moves value between notes and never changes
      how much is outstanding. */
  lemma ApplyConserves(env: Env, m: MintState, call: Call)
    requires Applicable(env, m, call) && call.pr.None?
    ensures Total(Apply(env, m, call).live) == Total(m.live)
  {
    var inputs, outputs := Inputs(env, call).value, Outputs(env, call).value;
    var rest, total := Without(m.live, inputs), SumOf(m.live, inputs);
    TotalWithout(m.live, inputs);
    hide Total, Ids;
    assert outputs[0] in outputs;
    if call.amount.Some? {
      assert outputs[1] in outputs && outputs[0] != outputs[1];
      TotalAdd(rest, outputs[0], call.amount.value);
      TotalAdd(rest[outputs[0] := call.amount.value], outputs[1], total - call.amount.value);
    } else {
      TotalAdd(rest, outputs[0], total);
    }
  }
}
