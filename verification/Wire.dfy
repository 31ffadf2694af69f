// The client over the crate's own spends: what `hash_k1`, `decode_note` and
// `note_id_of` are to the mutations that use them.

module Wire {
  import opened Wrappers
  import opened Text
  import opened Bytes
  import opened Hashing
  import opened Bech32
  import opened Errors
  import opened Protocol
  import opened Mint
  import opened Client
  import opened Safety
  import opened Mints
  import Spends

  /** The wire layer's names for what the spend layer computes. */
  function WireEnv(e: Spends.Env, domain: string, allowed: string -> bool): Protocol.Env {
    Protocol.Env(
      k1 => Spends.HashK1(e, k1),
      output => Spends.DecodeNote(e, output),
      k1 => Spends.NoteIdOf(e, k1),
      value => Spends.DecodeCp1(e, value).Some?,
      k1 => var check := Spends.CheckSpend(e, k1, domain); check.Some? && check.value.verdict.Fails?,
      allowed,
      e.codec)
  }

  /** A generated secret is one the client's theorems ask for: the spend it
      makes opens the note its disclosed hash names, and it is its own
      lowercase form. */
  lemma GeneratedSecretIsWellMade(e: Spends.Env, domain: string, allowed: string -> bool, secret: Digest)
    ensures WellMade(WireEnv(e, domain, allowed), HexEncode(secret))
    ensures Lower(HexEncode(secret)) == HexEncode(secret)
  {
    HexIsTidy(secret);
    HexRoundTrip(secret);
    HexIsTidy(e.sha(secret));
    Spends.Hex32OfEncoded(e.sha(secret));
    if Spends.BearerNoteOf(e, e.sha(secret)).Some? {
      Spends.SecretOpensItsOutput(e, secret);
    }
    hide Spends.NoteIdOf, Spends.BearerNoteOf, HexEncode, HexDecode, Trim, Lower;
  }

  /** A rotate to a freshly generated note orphans nothing: the secret that
      comes back, in success or error, is a preimage the mint's own rules open. */
  lemma RotateToGeneratedNote(s: Setup, w: World, e: Spends.Env, domain: string, callback: string, k1: string,
                              secret: Digest)
    requires s.env == WireEnv(e, domain, s.env.allowed)
    requires Lawful(s, s.config.mutationRetries) && ValidMint(s.env, w.mint)
    requires Unseen(s.env, w.mint, HexEncode(secret))
    ensures var (w', r) := MergeNotes(s, w, Rotate, callback, [k1], HexEncode(secret));
            SafeRun(s, w, MergeRequest(s.env, callback, [k1], HexEncode(secret)), w', r.Ok?,
                    if r.Ok? then [r.value.k1] else SecretsIn(r.error))
  {
    GeneratedSecretIsWellMade(e, domain, s.env.allowed, secret);
    RotateAndMergeAreSafe(s, w, Rotate, callback, [k1], HexEncode(secret));
  }

  /** Over the crate's own spends a note and its lowercase are one. */
  lemma LowerNamesTheSameNote(e: Spends.Env, domain: string, allowed: string -> bool, k1: string)
    requires e.codec.Valid() && WireEnv(e, domain, allowed).spendOf(k1).Some?
    ensures WireEnv(e, domain, allowed).spendOf(Lower(k1)) == WireEnv(e, domain, allowed).spendOf(k1)
  {
    hide Spends.DecodeSpend, Lower;
    Spends.SpendIgnoresCase(e, k1);
  }

  /** A GET's echo is taken for the queried note when the two read the same, or
      open one note and the echo is not seen to fail at the queried domain. */
  lemma EchoedIff(e: Spends.Env, domain: string, allowed: string -> bool, echoed: string, queried: string)
    ensures SameNote(WireEnv(e, domain, allowed), echoed, queried) <==>
            || Lower(Trim(echoed)) == Lower(Trim(queried))
            || (var echo, note := Spends.CheckSpend(e, echoed, domain), Spends.CheckSpend(e, queried, domain);
                && echo.Some? && note.Some? && echo.value.outputKey == note.value.outputKey
                && !echo.value.verdict.Fails?)
  {
    hide Spends.DecodeSpend, Spends.VerdictOf, Lower, Trim;
  }

  /** So a bearer note may be echoed in its full spelling, and asked for in it. */
  lemma BearerEchoes(e: Spends.Env, domain: string, allowed: string -> bool, k1: string, preimage: Digest)
    requires e.codec.Valid()
    requires Spends.Hex32(k1) == Some(preimage) && Spends.BearerNoteOf(e, e.sha(preimage)).Some?
    ensures Spends.FullSpelling(e, preimage).Some?
    ensures SameNote(WireEnv(e, domain, allowed), Spends.FullSpelling(e, preimage).value, k1)
    ensures SameNote(WireEnv(e, domain, allowed), k1, Spends.FullSpelling(e, preimage).value)
  {
    hide Spends.CheckSpend, Spends.BearerNoteOf, Lower, Trim, SameNote;
    Spends.BearerIsOneSpend(e, k1, preimage, domain, domain);
    var full := Spends.FullSpelling(e, preimage).value;
    EchoedIff(e, domain, allowed, full, k1);
    EchoedIff(e, domain, allowed, k1, full);
  }

  /** An output is owed a certificate by its kind: a `cp1` naming a key is one,
      a bearer note's hash is not. */
  lemma OnlyKeysAreCp1(e: Spends.Env, domain: string, allowed: string -> bool, key: Digest)
    requires e.codec.Valid()
    ensures WireEnv(e, domain, allowed).isCp1(e.codec.Encode("cp", key)) <==> e.g.lift(key).Some?
    ensures !WireEnv(e, domain, allowed).isCp1(HexEncode(key))
  {
    assert IsPrefix("cp");
    e.codec.RoundTrip("cp", key);
    HexIsTidy(key);
    if e.codec.Decode("cp", HexEncode(key)).Some? {
      HexIsNoCp1(e.codec, e.codec.Decode("cp", HexEncode(key)).value, key);
      e.codec.Canonical("cp", HexEncode(key));
    }
  }

  lemma HexIsNoCp1(codec: Codec, payload: bytes, key: bytes)
    ensures codec.Encode("cp", payload) != HexEncode(key)
  {
    assert codec.Encode("cp", payload)[1] == 'p';
    assert !IsHexDigit('p');
  }

  /** So settling to a freshly generated note needs the replay rule exactly
      when it can be retried and its rotate sent and applied. */
  lemma SettleToGeneratedNoteIff(e: Spends.Env, domain: string, allowed: string -> bool, config: Config, w: World,
                                 base: Option<Link>, k1: string, expected: nat, signature: Option<string>,
                                 secret: Digest)
    requires e.codec.Valid() && ValidMint(WireEnv(e, domain, allowed), w.mint) && expected <= U64_MAX
    requires Unseen(WireEnv(e, domain, allowed), w.mint, HexEncode(secret))
    ensures var env := WireEnv(e, domain, allowed);
            (forall service: Service | Honest(env, service) && HonestInfo(env, service, config.policy) ::
               var (w', r) := SettleNote(Setup(env, config, service), w, base, k1, expected, signature,
                   HexEncode(secret));
               r.Ok? ==> Outstanding(env, w'.mint, r.value.k1))
            <==> config.mutationRetries == 0 || base.None? || config.offline || !allowed(base.value.address)
                 || var built := MergeRequest(env, base.value.address, [k1], HexEncode(secret));
                    built.Err? || !Applicable(env, w.mint, built.value.call)
  {
    hide ValidMint, Applicable, Honest, HonestInfo, SettleNote, Outstanding, HexEncode, Lower, WellMade, Unseen;
    var env := WireEnv(e, domain, allowed);
    GeneratedSecretIsWellMade(e, domain, allowed, secret);
    SettledIsLiveIff(env, config, w, base, k1, expected, signature, HexEncode(secret));
    if base.Some? {
      var built := MergeRequest(env, base.value.address, [k1], HexEncode(secret));
      if built.Ok? && Applicable(env, w.mint, built.value.call) {
        InputIsLive(env, w.mint, base.value.address, k1, HexEncode(secret));
        LowerNamesTheSameNote(e, domain, allowed, k1);
      }
    }
  }
}
