// Requests and responses (src/protocol.rs), without I/O: the builders behind
// rotate, split, merge and melt, and the parsers of what comes back.

module Protocol {
  import opened Wrappers
  import opened Text
  import opened Bytes
  import opened Hashing
  import opened Bech32
  import opened NoteUrl
  import opened Errors

  /** A note's output key. */
  type Id = Digest

  /** What the wire layer takes from elsewhere: `hash_k1`, `decode_note`,
      `note_id_of`, `is_cp1`, whether a spend demonstrably fails at the queried
      domain, `is_allowed_service_url` and bech32m. */
  datatype Env = Env(
    hash: string -> Option<string>, noteOf: string -> Option<Id>, spendOf: string -> Option<Id>,
    isCp1: string -> bool, fails: string -> bool, allowed: string -> bool, codec: Codec
  )

  datatype Policy = Policy(requireSignatures: bool, requireMintPubkey: bool)

  datatype MutationKind = Melt | Rotate | Split | Merge

  /** The parameters a mutating callback URL carries, and all a mint matches a
      replay on. */
  datatype Call = Call(k1s: seq<string>, amount: Option<nat>, outputs: seq<string>, pr: Option<string>)

  datatype Request = Request(callback: string, call: Call, newSecrets: seq<string>)

  // ---- builders ----

  function CallbackRequest(env: Env, callback: string, call: Call, secrets: seq<string>): Result<Request, Error> {
    if !env.allowed(callback) || call.k1s == [] then Err(RequestRefused)
    else Ok(Request(callback, call, secrets))
  }

  /** The hash a generated secret is disclosed by, refused unless it names a note. */
  function OutputFor(env: Env, secret: string): Result<string, Error> {
    var h := env.hash(secret);
    if h.None? then Err(ProtocolError)
    else if env.noteOf(Trim(h.value)).None? then Err(RequestRefused)
    else Ok(Trim(h.value))
  }

  function MeltRequest(env: Env, callback: string, k1: string, pr: string): Result<Request, Error> {
    CallbackRequest(env, callback, Call([k1], None, [], Some(Trim(pr))), [])
  }

  /** A rotate is a merge of one. */
  function MergeRequest(env: Env, callback: string, k1s: seq<string>, secret: string): Result<Request, Error> {
    var p1 :- OutputFor(env, secret);
    CallbackRequest(env, callback, Call(k1s, None, [p1], None), [secret])
  }

  function SplitRequest(env: Env, callback: string, k1s: seq<string>, amount: nat, secret: string, change: string)
    : Result<Request, Error>
  {
    if env.hash(secret).None? || env.hash(change).None? then Err(ProtocolError)
    else
      var p1 :- OutputFor(env, secret);
      var p2 :- OutputFor(env, change);
      CallbackRequest(env, callback, Call(k1s, Some(amount), [p1, p2], None), [secret, change])
  }

  // ---- bodies ----

  datatype MinField = Missing | Malformed | Given(amount: nat)

  /** The fields of a JSON body the parsers read, strings and numbers only. */
  datatype Body = Body(
    status: Option<string>, reason: Option<string>, tag: Option<string>,
    callback: Option<string>, k1: Option<string>,
    maxWithdrawable: Option<nat>, minWithdrawable: MinField, mintPubkey: Option<string>,
    c: Option<string>, c2: Option<string>, sig: Option<string>, sig2: Option<string>,
    pr: Option<string>, verify: Option<string>
  )

  function Reason(body: Body): string {
    if body.reason.Some? then body.reason.value else ""
  }

  predicate IsError(body: Body) {
    body.status == Some("ERROR")
  }

  predicate IsOk(body: Body) {
    body.status == Some("OK")
  }

  function NonEmpty(s: Option<string>): Option<string> {
    if s == Some("") then None else s
  }

  /** A certificate field by its current name, else the legacy one. */
  function Certificate(current: Option<string>, legacy: Option<string>): Option<string> {
    if NonEmpty(current).Some? then current else NonEmpty(legacy)
  }

  datatype MutationResponse = MutationResponse(
    signature: Option<string>, changeSignature: Option<string>, pr: Option<string>, verify: Option<string>)

  /** Whether an output came back without the certificate it was owed. */
  predicate Owed(env: Env, returned: Option<string>, outputs: seq<string>, index: nat, policy: Policy) {
    returned.None? && ((index < |outputs| && env.isCp1(Lower(Trim(outputs[index])))) || policy.requireSignatures)
  }

  function ParseMutation(env: Env, body: Body, kind: MutationKind, outputs: seq<string>, policy: Policy)
    : Result<MutationResponse, Error>
  {
    if IsError(body) then Err(ClassifyNoteError(Reason(body)))
    else if !IsOk(body) then Err(Ambiguous([]))
    else
      var signature := Certificate(body.c, body.sig);
      var change := Certificate(body.c2, body.sig2);
      if (kind.Rotate? || kind.Merge? || kind.Split?) && Owed(env, signature, outputs, 0, policy) then
        Err(Unverifiable([]))
      else if kind.Split? && Owed(env, change, outputs, 1, policy) then Err(Unverifiable([]))
      else Ok(MutationResponse(signature, change, body.pr, body.verify))
  }

  // ---- the informational GET ----

  datatype WithdrawInfo = WithdrawInfo(callback: string, k1: string, maxWithdrawable: nat, minWithdrawable: nat)

  predicate IsCompressedPubkey(value: string) {
    var key := Lower(Trim(value));
    |key| == 66 && ("02" <= key || "03" <= key) && forall i | 0 <= i < |key| :: IsHexDigit(key[i])
  }

  /** A mint's key is 33 bytes of either parity, in hexadecimal of any case. */
  lemma CompressedPubkeyIff(value: string)
    ensures IsCompressedPubkey(value) <==>
            exists k: bytes :: |k| == 33 && (k[0] == 2 || k[0] == 3) && HexEncode(k) == Lower(Trim(value))
  {
    var key := Lower(Trim(value));
    LowerIdempotent(Trim(value));
    hide Lower, Trim, HexEncode;
    if IsCompressedPubkey(value) {
      var k := KeyRead(key);
      assert |k| == 33 && HexEncode(k) == key;
    }
    if k: bytes :| |k| == 33 && (k[0] == 2 || k[0] == 3) && HexEncode(k) == key {
      KeyWritten(k);
    }
  }

  lemma KeyRead(key: string) returns (k: bytes)
    requires |key| == 66 && ("02" <= key || "03" <= key) && forall i | 0 <= i < |key| :: IsHexDigit(key[i])
    ensures |k| == 33 && (k[0] == 2 || k[0] == 3) && HexEncode(k) == Lower(key)
  {
    HexDecodesDigits(key);
    HexOfDecoded(key);
    k := HexDecode(key).value;
    hide HexEncode, Lower;
    assert k[0] == HexValue(key[0]) * 16 + HexValue(key[1]);
  }

  lemma KeyWritten(k: bytes)
    requires |k| == 33 && (k[0] == 2 || k[0] == 3)
    ensures "02" <= HexEncode(k) || "03" <= HexEncode(k)
  {
    var key := HexEncode(k);
    assert key[0] == HexDigit(k[0] / 16) && key[1] == HexDigit(k[0] % 16);
    hide HexEncode;
    assert key[..2] == if k[0] == 2 then "02" else "03";
  }

  /** Whether an echoed k1 names the queried note. */
  predicate SameNote(env: Env, echoed: string, queried: string) {
    || Lower(Trim(echoed)) == Lower(Trim(queried))
    || (env.spendOf(echoed).Some? && env.spendOf(echoed) == env.spendOf(queried) && !env.fails(echoed))
  }

  function ParseNoteInfo(env: Env, body: Body, query: Query, policy: Policy): Result<WithdrawInfo, Error> {
    if IsError(body) then Err(ClassifyNoteError(Reason(body)))
    else if body.tag != Some("withdrawRequest") || body.callback.None? || body.k1.None? || body.maxWithdrawable.None?
            || body.minWithdrawable.Malformed? then Err(ProtocolError)
    else
      var min := if body.minWithdrawable.Given? then body.minWithdrawable.amount else 0;
      if min > body.maxWithdrawable.value then Err(ProtocolError)
      else if NoteK1(query).Some? && !SameNote(env, body.k1.value, NoteK1(query).value) then Err(ProtocolError)
      else if policy.requireMintPubkey && !(body.mintPubkey.Some? && IsCompressedPubkey(body.mintPubkey.value)) then
        Err(ProtocolError)
      else Ok(WithdrawInfo(body.callback.value, Lower(body.k1.value), body.maxWithdrawable.value, min))
  }

  /** An answer that confirms is the only one read as success, and an owed
      certificate is the only thing that still turns it into an error. */
  lemma OnlyOkIsOk(env: Env, body: Body, kind: MutationKind, outputs: seq<string>, policy: Policy)
    ensures var r := ParseMutation(env, body, kind, outputs, policy);
            && (r.Ok? || (r.Err? && r.error.Unverifiable?) <==> IsOk(body))
            && (r.Err? && r.error.Ambiguous? <==> !IsOk(body) && !IsError(body))
            && (IsError(body) ==>
                  r == Err(ClassifyNoteError(if body.reason == None then "" else body.reason.value)))
  {
  }

  /** Success means every output got what it was owed: a `cp1` its certificate
      whatever the policy says, a hash one when the policy demands it. */
  lemma OkMeansCertified(env: Env, body: Body, kind: MutationKind, outputs: seq<string>, policy: Policy, index: nat)
    requires !kind.Melt? && index < |outputs| && index < (if kind.Split? then 2 else 1)
    requires env.isCp1(Lower(Trim(outputs[index]))) || policy.requireSignatures
    requires ParseMutation(env, body, kind, outputs, policy).Ok?
    ensures var r := ParseMutation(env, body, kind, outputs, policy).value;
            var certificate := if index == 0 then r.signature else r.changeSignature;
            certificate.Some? && certificate.value != ""
  {
  }

  /** Neither of a certificate's two names holds one. */
  predicate Uncertified(current: Option<string>, legacy: Option<string>) {
    (current.None? || current.value == "") && (legacy.None? || legacy.value == "")
  }

  /** A confirmed mutation is unverifiable exactly when an output it was owed a
      certificate for came back without one: the first of a rotate, split or
      merge, and a split's second. */
  lemma UnverifiableIff(env: Env, body: Body, kind: MutationKind, outputs: seq<string>, policy: Policy)
    ensures var owed := (i: nat) => (i < |outputs| && env.isCp1(Lower(Trim(outputs[i])))) || policy.requireSignatures;
            var r := ParseMutation(env, body, kind, outputs, policy);
            r == Err(Unverifiable([])) <==>
              && body.status == Some("OK") && kind != Melt
              && ((owed(0) && Uncertified(body.c, body.sig))
                  || (kind == Split && owed(1) && Uncertified(body.c2, body.sig2)))
  {
    hide Lower, Trim, Contains;
  }

  /** What makes an informational GET a note: a withdrawRequest that names the
      queried one, with bounds in order and, on demand, the mint's key. */
  lemma NoteInfoOkIff(env: Env, body: Body, query: Query, policy: Policy)
    ensures var r := ParseNoteInfo(env, body, query, policy);
            && (r.Ok? <==>
                && body.status != Some("ERROR") && body.tag == Some("withdrawRequest")
                && body.callback.Some? && body.k1.Some? && body.maxWithdrawable.Some?
                && body.minWithdrawable != Malformed
                && (body.minWithdrawable.Given? ==> body.minWithdrawable.amount <= body.maxWithdrawable.value)
                && (NoteK1(query).Some? ==>
                      var echoed, queried := body.k1.value, NoteK1(query).value;
                      || Lower(Trim(echoed)) == Lower(Trim(queried))
                      || (env.spendOf(echoed).Some? && env.spendOf(queried).Some? && !env.fails(echoed)
                          && env.spendOf(echoed).value == env.spendOf(queried).value))
                && (policy.requireMintPubkey ==> body.mintPubkey.Some? && IsCompressedPubkey(body.mintPubkey.value)))
            && (r.Ok? ==>
                  r.value == WithdrawInfo(body.callback.value, Lower(body.k1.value), body.maxWithdrawable.value,
                                          if body.minWithdrawable == Missing then 0 else body.minWithdrawable.amount))
            && (r.Err? && body.status != Some("ERROR") ==> r.error == ProtocolError)
            && (body.status == Some("ERROR") ==>
                  r == Err(ClassifyNoteError(if body.reason == None then "" else body.reason.value)))
  {
    hide Lower, Trim, ClassifyNoteError, IsCompressedPubkey;
  }
}
