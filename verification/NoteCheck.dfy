// LUD-25's offline verification of a whole note (src/signature.rs): its spend
// and its certificate together.

module NoteCheck {
  import opened Wrappers
  import opened Bytes
  import opened Hashing
  import opened Text
  import opened Bech32
  import opened Amounts
  import M = SpendMessage
  import N = NoteUrl
  import S = Spends
  import C = Certificates

  datatype Env = Env(spends: S.Env, recovers: (Digest, bytes, byte, string) -> bool) {
    function Certificates(): C.Env {
      C.Env(spends.sha, spends.codec, spends.domainOf, recovers)
    }
  }

  datatype Check = Check(outputKey: Digest, spend: S.Verdict, certificate: C.Over)

  function CheckNote(env: Env, k1: string, domain: string, amount: nat, signature: string, mint: string)
    : Option<Check>
  {
    var check :- S.CheckSpend(env.spends, k1, domain);
    var spend :- S.DecodeSpend(env.spends, k1);
    var over :- C.CertifiedOver(env.Certificates(), check.outputKey, S.BearerHashOf(env.spends, spend), domain, amount,
                                signature, mint);
    Some(Check(check.outputKey, check.verdict, over))
  }

  /** `SpendVerdict::opens`. */
  predicate IsOpen(verdict: S.Verdict) {
    verdict.Opens? || verdict.OpensLegacy?
  }

  /** `NoteCheck::is_verified`. */
  predicate IsVerified(check: Option<Check>) {
    check.Some? && IsOpen(check.value.spend)
  }

  /** Whether what the mint signed certifies a note, in a form that allows
      it: the key at the mint's domain, the key without one, or the bearer
      hash without one. */
  ghost predicate Certifies(env: C.Env, key: Digest, bearerHash: Option<Digest>, domain: string, amount: nat,
                            signature: string, mint: string, signed: bytes) {
    exists over :: C.MessageOf(env, over, key, bearerHash, domain, amount) == Some(signed)
                   && C.FormAllows(env, over, signature, amount, mint, signed)
  }

  lemma CertifiedIff(env: C.Env, key: Digest, bearerHash: Option<Digest>, domain: string, amount: nat,
                     signature: string, mint: string, signed: bytes)
    requires C.SignedFor(env, key, bearerHash, domain, amount, signature, mint, signed)
    ensures C.CertifiedOver(env, key, bearerHash, domain, amount, signature, mint).Some? <==>
            Certifies(env, key, bearerHash, domain, amount, signature, mint, signed)
  {
    hide C.CertifiedOver, C.MessageOf, C.SignedFor, C.IsCurrentForm, C.CertificateBytes;
    forall over: C.Over
      ensures C.CertifiedOver(env, key, bearerHash, domain, amount, signature, mint) == Some(over) <==>
              C.MessageOf(env, over, key, bearerHash, domain, amount) == Some(signed)
              && C.FormAllows(env, over, signature, amount, mint, signed)
              && (over == C.OverLegacyHash ==> bearerHash != Some(key))
    {
      C.ReportsWhatWasSigned(env, key, bearerHash, domain, amount, signature, mint, signed, over);
    }
    SameHashSameMessage(env, key, domain, amount);
  }

  lemma SameHashSameMessage(env: C.Env, key: Digest, domain: string, amount: nat)
    ensures C.MessageOf(env, C.OverLegacyHash, key, Some(key), domain, amount)
         == C.MessageOf(env, C.OverLegacyOutputKey, key, Some(key), domain, amount)
  {
  }

  /** Whatever the spend, and whatever spelling and layout the certificate
      comes in, a note is verified exactly when the spend opens it and what the
      mint signed certifies it for that amount. */
  lemma NoteVerifiedIff(env: Env, k1: string, domain: string, amount: nat, signature: string, mint: string,
                        signed: bytes)
    requires S.DecodeSpend(env.spends, k1).Some?
    requires var spend := S.DecodeSpend(env.spends, k1).value;
             C.SignedFor(env.Certificates(), spend.key, S.BearerHashOf(env.spends, spend), domain, amount,
                         signature, mint, signed)
    ensures var spend := S.DecodeSpend(env.spends, k1).value;
            IsVerified(CheckNote(env, k1, domain, amount, signature, mint)) <==>
            && IsOpen(S.CheckSpend(env.spends, k1, domain).value.verdict)
            && Certifies(env.Certificates(), spend.key, S.BearerHashOf(env.spends, spend), domain, amount, signature,
                mint, signed)
  {
    hide S.DecodeSpend, S.VerdictOf, S.BearerHashOf, C.CertifiedOver, C.MessageOf, C.SignedFor, Certifies;
    var spend := S.DecodeSpend(env.spends, k1).value;
    CertifiedIff(env.Certificates(), spend.key, S.BearerHashOf(env.spends, spend), domain, amount, signature, mint,
        signed);
  }

  /** A preimage with a certificate is a verified note exactly when what the
      mint signed certifies that preimage's note for that amount. */
  lemma BearerNoteVerifiedIff(env: Env, k1: string, preimage: Digest, domain: string, amount: nat,
                              signature: string, mint: string, signed: bytes)
    requires env.spends.codec.Valid() && S.Hex32(k1) == Some(preimage)
    requires S.BearerNoteOf(env.spends, env.spends.sha(preimage)).Some?
    requires var h := env.spends.sha(preimage);
             var key := S.BearerNoteOf(env.spends, h).value.outputKey;
             C.SignedFor(env.Certificates(), key, Some(h), domain, amount, signature, mint, signed)
    ensures var h := env.spends.sha(preimage);
            var key := S.BearerNoteOf(env.spends, h).value.outputKey;
            IsVerified(CheckNote(env, k1, domain, amount, signature, mint)) <==>
            Certifies(env.Certificates(), key, Some(h), domain, amount, signature, mint, signed)
  {
    hide S.Hex32, S.BearerNoteOf, S.DecodeSpend, S.BearerHashOf, S.VerdictOf, C.CertifiedOver, C.MessageOf, C.SignedFor,
      Certifies, IsVerified, CheckNote;
    S.BearerIsOneSpend(env.spends, k1, preimage, domain, domain);
    S.PreimageNamesItsHash(env.spends, k1, preimage);
    NoteVerifiedIff(env, k1, domain, amount, signature, mint, signed);
  }

  /** A `ck1` whose signature is of `owned`, and passes for nothing else tried
      at the domain, is a verified note exactly when the mint's certificate
      certifies its key and `owned` is the spend of that key at the note's own
      domain or one of the two fixed legacy messages. */
  lemma KeyPathNoteVerifiedIff(env: Env, k1: string, key: Digest, proof: bytes, owned: bytes, domain: string,
                               amount: nat, signature: string, mint: string, signed: bytes)
    requires S.DecodeSpend(env.spends, k1) == Some(S.KeyPath(key, proof))
    requires S.SignsOnly(env.spends, key, proof, owned, domain)
    requires C.SignedFor(env.Certificates(), key, None, domain, amount, signature, mint, signed)
    ensures IsVerified(CheckNote(env, k1, domain, amount, signature, mint)) <==>
            && (S.OwnedAt(env.spends, key, owned, domain) || S.IsLegacyOwnership(env.spends.sha, owned))
            && Certifies(env.Certificates(), key, None, domain, amount, signature, mint, signed)
  {
    hide C.CertifiedOver, C.MessageOf, C.SignedFor, Certifies, IsVerified, CheckNote, S.DecodeSpend;
    NoteVerifiedIff(env, k1, domain, amount, signature, mint, signed);
    hide S.OwnedAt, S.IsLegacyOwnership;
    S.IdealVerdict(env.spends, key, proof, owned, domain);
  }

  /** So a `ck1` signed for one mint is a verified note at another exactly
      when the two are one domain and the certificate holds there too. */
  lemma OwnedNoteVerifiedIff(env: Env, k1: string, key: Digest, proof: bytes, home: string, domain: string, amount: nat,
                             signature: string, mint: string, signed: bytes)
    requires S.DecodeSpend(env.spends, k1) == Some(S.KeyPath(key, proof))
    requires env.spends.domainOf(home).Some? && env.spends.domainOf(domain).Some?
    requires S.SignsOnly(env.spends, key, proof,
                         M.KeyPathSighash(env.spends.sha, key, env.spends.domainOf(home).value), domain)
    requires CollisionFree(env.spends.sha, S.OwnershipInputs(env.spends, key, home, domain))
    requires C.SignedFor(env.Certificates(), key, None, domain, amount, signature, mint, signed)
    ensures IsVerified(CheckNote(env, k1, domain, amount, signature, mint)) <==>
            && M.LowerBytes(env.spends.domainOf(home).value) == M.LowerBytes(env.spends.domainOf(domain).value)
            && Certifies(env.Certificates(), key, None, domain, amount, signature, mint, signed)
  {
    hide C.CertifiedOver, C.MessageOf, C.SignedFor, CollisionFree, Certifies, IsVerified, CheckNote,
      S.DecodeSpend, S.OwnedAt, S.IsLegacyOwnership, M.LowerBytes, S.OwnershipInputs;
    var owned := M.KeyPathSighash(env.spends.sha, key, env.spends.domainOf(home).value);
    KeyPathNoteVerifiedIff(env, k1, key, proof, owned, domain, amount, signature, mint, signed);
    S.OwnedAtIff(env.spends, key, home, domain);
  }

  // ---- a whole note URL ----

  /** `check_note_url`, of an address and its query. `nameOf` is the domain an
      address names, as text. */
  function CheckNoteUrl(env: Env, nameOf: string -> Option<string>, address: string, query: N.Query, mint: string)
    : Option<Check>
  {
    var k1 :- N.NoteK1(query);
    var domain :- nameOf(address);
    var amount :- N.NoteDeclaredAmount(env.spends.codec, query);
    var signature :- N.NoteSignature(query);
    CheckNote(env, k1, domain, amount, signature, mint)
  }

  /** What a rewritten note declares. */
  function Declared(codec: Codec, amount: nat, signature: string): nat {
    var cs1 := DecodeCs1WithAmount(codec, signature);
    if cs1.Some? then cs1.value.amountMsat else amount
  }

  lemma CheckIgnoresCase(env: Env, k1: string, domain: string, amount: nat, signature: string, mint: string)
    requires env.spends.codec.Valid() && S.DecodeSpend(env.spends, k1).Some?
    ensures CheckNote(env, Lower(k1), domain, amount, signature, mint)
        == CheckNote(env, k1, domain, amount, signature, mint)
  {
    S.SpendIgnoresCase(env.spends, k1);
    hide S.DecodeSpend, S.VerdictOf, S.BearerHashOf, C.CertifiedOver;
  }

  /** The URL `with_new_k1` writes is a note to the offline check exactly as
      its parts are: its own k1 in whatever case, the amount it declares and
      the certificate it was given. Without one it is no certified note. */
  lemma WrittenUrlChecksAsItsParts(env: Env, nameOf: string -> Option<string>, address: string, query: N.Query,
                                   k1: string, amount: nat, signature: Option<string>, mint: string)
    requires env.spends.codec.Valid() && S.DecodeSpend(env.spends, k1).Some? && amount <= U64_MAX
    ensures var codec := env.spends.codec;
            var url := N.Rewrite(N.EditOf(codec, Some(k1), amount, signature), query);
            CheckNoteUrl(env, nameOf, address, url, mint) ==
            if nameOf(address).None? || signature.None? then None
            else CheckNote(env, k1, nameOf(address).value, Declared(codec, amount, signature.value), signature.value,
                mint)
  {
    hide N.Rewrite, N.EditOf, S.DecodeSpend, CheckNote, DecodeCs1WithAmount, Lower;
    var codec := env.spends.codec;
    N.NewNoteReadsBack(codec, query, k1, amount, signature);
    if nameOf(address).Some? && signature.Some? {
      CheckIgnoresCase(env, k1, nameOf(address).value, Declared(codec, amount, signature.value), signature.value, mint);
    }
  }
}
