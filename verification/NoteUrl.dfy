// Note URLs as query-pair lists (src/note.rs): what a note claims, and how
// its secret, amount and certificate are swapped for the next note's.

module NoteUrl {
  import opened Wrappers
  import opened Text
  import opened Bytes
  import opened Bech32
  import opened Amounts

  type Query = seq<(string, string)>

  // ---- readers ----

  function FirstParam(query: Query, key: string): Option<string> {
    if query == [] then None
    else if query[0].0 == key then Some(query[0].1)
    else FirstParam(query[1..], key)
  }

  function NoteK1(query: Query): Option<string> {
    var k1 :- FirstParam(query, "k1");
    Some(Lower(k1))
  }

  /** `c`, or the legacy `sig`. */
  function NoteSignature(query: Query): Option<string> {
    var c := FirstParam(query, "c");
    if c.Some? then c else FirstParam(query, "sig")
  }

  /** `str::parse::<u64>`, which admits a plus sign. */
  function ParseU64(s: string): Option<nat> {
    ParseDigits(if s != [] && s[0] == '+' then s[1..] else s, U64_MAX)
  }

  function NoteDeclaredAmount(codec: Codec, query: Query): Option<nat> {
    var amount := FirstParam(query, "amount");
    if amount.Some? then ParseU64(amount.value)
    else
      var signature :- NoteSignature(query);
      var cs1 :- DecodeCs1WithAmount(codec, signature);
      Some(cs1.amountMsat)
  }

  /** A key reads as its first pair's value, and as nothing without one. */
  lemma FirstParamIs(a: Query, pair: (string, string), b: Query)
    requires !Has(a, pair.0)
    ensures FirstParam(a + [pair] + b, pair.0) == Some(pair.1)
    ensures FirstParam(a, pair.0) == None
  {
    FirstParamNone(a, pair.0);
    FirstConcat(a, [pair] + b, pair.0);
    assert a + [pair] + b == a + ([pair] + b);
    assert ([pair] + b)[0] == pair;
  }

  lemma {:induction false} FirstParamNone(query: Query, key: string)
    ensures FirstParam(query, key) == None <==> !Has(query, key)
  {
    if query != [] {
      HasStep(query);
      FirstParamNone(query[1..], key);
    }
  }

  /** What a note URL claims, pair by pair: the first `k1`, in lowercase; the
      first `c`, or without one the first `sig`; and the first `amount`, with
      or without a plus sign. */
  lemma ReadersRead(codec: Codec, a: Query, pair: (string, string), b: Query, n: nat)
    requires !Has(a, pair.0)
    ensures var query := a + [pair] + b;
            && (pair.0 == "k1" ==> NoteK1(query) == Some(Lower(pair.1)))
            && (pair.0 == "c" ==> NoteSignature(query) == Some(pair.1))
            && (pair.0 == "sig" && !Has(query, "c") ==> NoteSignature(query) == Some(pair.1))
            && (pair == ("amount", Decimal(n)) || pair == ("amount", "+" + Decimal(n)) ==>
                  NoteDeclaredAmount(codec, query) == if n <= 0xFFFF_FFFF_FFFF_FFFF then Some(n) else None)
            && (pair == ("amount", "") || pair == ("amount", "+") ==> NoteDeclaredAmount(codec, query) == None)
  {
    hide DecodeCs1WithAmount, Has, FirstParam, Lower;
    var query := a + [pair] + b;
    FirstParamIs(a, pair, b);
    FirstParamNone(query, "c");
    DecimalRoundTrip(n);
    assert IsDigit(Decimal(n)[0]);
    assert ("+" + Decimal(n))[1..] == Decimal(n);
  }

  /** Without any `amount`, the amount is its certificate's, if that states one. */
  lemma AmountFromCertificate(codec: Codec, query: Query)
    requires !Has(query, "amount")
    ensures NoteDeclaredAmount(codec, query) ==
            match NoteSignature(query)
            case None => None
            case Some(c) =>
              (match DecodeCs1WithAmount(codec, c) case None => None case Some(cs1) => Some(cs1.amountMsat))
    ensures !Has(query, "c") && !Has(query, "sig") ==> NoteSignature(query) == None
    ensures !Has(query, "k1") ==> NoteK1(query) == None
  {
    FirstParamNone(query, "amount");
    FirstParamNone(query, "c");
    FirstParamNone(query, "sig");
    FirstParamNone(query, "k1");
  }

  // ---- rewriting ----

  /** What a rewrite writes; no `k1` is `without_k1`. `implied` says the new
      certificate states its own amount. */
  datatype Edit = Edit(k1: Option<string>, amount: nat, signature: Option<string>, implied: bool)

  function EditOf(codec: Codec, k1: Option<string>, amount: nat, signature: Option<string>): Edit {
    Edit(k1, amount, signature, signature.Some? && DecodeCs1WithAmount(codec, signature.value).Some?)
  }

  predicate IsCertificate(key: string) {
    key == "c" || key == "sig"
  }

  predicate Has(query: Query, key: string) {
    exists i | 0 <= i < |query| :: query[i].0 == key
  }

  predicate HasCertificate(query: Query) {
    exists i | 0 <= i < |query| :: IsCertificate(query[i].0)
  }

  function K1Pair(e: Edit): Query {
    if e.k1.Some? then [("k1", Lower(e.k1.value))] else []
  }

  function AmountPair(e: Edit): Query {
    if e.implied then [] else [("amount", Decimal(e.amount))]
  }

  function CertificatePair(e: Edit): Query {
    if e.signature.Some? then [("c", e.signature.value)] else []
  }

  /** What one pair becomes, once a certificate has been `seen` or not. */
  function Rewritten(e: Edit, pair: (string, string), seen: bool): Query {
    if pair.0 == "k1" then K1Pair(e)
    else if pair.0 == "amount" then AmountPair(e)
    else if IsCertificate(pair.0) then (if seen then [] else CertificatePair(e))
    else [pair]
  }

  function Body(e: Edit, query: Query, seen: bool): Query {
    if query == [] then []
    else Rewritten(e, query[0], seen) + Body(e, query[1..], seen || IsCertificate(query[0].0))
  }

  /** What the query lacked, in the order it is appended. */
  function Missing(e: Edit, query: Query): Query {
    (if Has(query, "k1") then [] else K1Pair(e))
    + (if Has(query, "amount") then [] else AmountPair(e))
    + (if HasCertificate(query) then [] else CertificatePair(e))
  }

  /** `with_new_k1`, or `without_k1` for an edit without one. */
  function Rewrite(e: Edit, query: Query): Query {
    Body(e, query, false) + Missing(e, query)
  }

  lemma {:induction false} BodyConcat(e: Edit, a: Query, b: Query, seen: bool)
    ensures Body(e, a + b, seen) == Body(e, a, seen) + Body(e, b, seen || HasCertificate(a))
  {
    if a == [] {
      assert a + b == b;
    } else {
      assert (a + b)[1..] == a[1..] + b;
      BodyConcat(e, a[1..], b, seen || IsCertificate(a[0].0));
      HasStep(a);
    }
  }

  lemma HasStep(q: Query)
    requires q != []
    ensures HasCertificate(q) <==> IsCertificate(q[0].0) || HasCertificate(q[1..])
    ensures forall key :: Has(q, key) <==> q[0].0 == key || Has(q[1..], key)
  {
    assert forall i | 0 < i < |q| :: q[i] == q[1..][i - 1];
  }

  lemma HasConcat(a: Query, b: Query)
    ensures HasCertificate(a + b) <==> HasCertificate(a) || HasCertificate(b)
    ensures forall key :: Has(a + b, key) <==> Has(a, key) || Has(b, key)
  {
    assert forall i | 0 <= i < |a + b| :: (a + b)[i] == if i < |a| then a[i] else b[i - |a|];
    assert forall i | 0 <= i < |a| :: a[i] == (a + b)[i];
    assert forall i | 0 <= i < |b| :: b[i] == (a + b)[i + |a|];
  }

  lemma HasSnoc(a: Query, pair: (string, string))
    ensures HasCertificate(a + [pair]) <==> HasCertificate(a) || IsCertificate(pair.0)
    ensures forall key :: Has(a + [pair], key) <==> Has(a, key) || pair.0 == key
  {
    HasConcat(a, [pair]);
    HasStep([pair]);
  }

  lemma HasNothing()
    ensures !HasCertificate([]) && forall key :: !Has([], key)
  {
  }

  lemma BodySnoc(e: Edit, a: Query, pair: (string, string))
    ensures Body(e, a + [pair], false) == Body(e, a, false) + Rewritten(e, pair, HasCertificate(a))
  {
    BodyConcat(e, a, [pair], false);
    assert [pair][1..] == [];
    assert Body(e, [pair], HasCertificate(a)) == Rewritten(e, pair, HasCertificate(a)) + [];
  }

  /** `with_new_k1`: one pass, three flags, then whatever was missing. */
  method WithNewK1(codec: Codec, query: Query, k1: string, amount: nat, signature: Option<string>)
    returns (pairs: Query)
    ensures pairs == Rewrite(EditOf(codec, Some(k1), amount, signature), query)
  {
    hide DecodeCs1WithAmount, Lower, Decimal, Has, HasCertificate;
    ghost var e := EditOf(codec, Some(k1), amount, signature);
    var implied := signature.Some? && DecodeCs1WithAmount(codec, signature.value).Some?;
    var sawK1, sawAmount, sawSig := false, false, false;
    pairs := [];
    var i := 0;
    HasNothing();
    while i < |query|
      invariant i <= |query|
      invariant pairs == Body(e, query[..i], false)
      invariant sawK1 == Has(query[..i], "k1")
      invariant sawAmount == (!implied && Has(query[..i], "amount"))
      invariant sawSig == (signature.Some? && HasCertificate(query[..i]))
    {
      assert query[..i + 1] == query[..i] + [query[i]];
      BodySnoc(e, query[..i], query[i]);
      HasSnoc(query[..i], query[i]);
      var (key, value) := query[i];
      if key == "k1" {
        pairs := pairs + [("k1", Lower(k1))];
        sawK1 := true;
      } else if key == "amount" {
        if !implied {
          pairs := pairs + [("amount", Decimal(amount))];
          sawAmount := true;
        }
      } else if key == "c" || key == "sig" {
        if signature.Some? && !sawSig {
          pairs := pairs + [("c", signature.value)];
          sawSig := true;
        }
      } else {
        pairs := pairs + [(key, value)];
      }
      i := i + 1;
    }
    assert query[..i] == query;
    if !sawK1 {
      pairs := pairs + [("k1", Lower(k1))];
    }
    if !sawAmount && !implied {
      pairs := pairs + [("amount", Decimal(amount))];
    }
    if signature.Some? && !sawSig {
      pairs := pairs + [("c", signature.value)];
    }
  }

  /** `without_k1`: the same pass, dropping every `k1`. */
  method WithoutK1(codec: Codec, query: Query, amount: nat, signature: Option<string>) returns (pairs: Query)
    ensures pairs == Rewrite(EditOf(codec, None, amount, signature), query)
  {
    hide DecodeCs1WithAmount, Decimal, Has, HasCertificate;
    ghost var e := EditOf(codec, None, amount, signature);
    var implied := signature.Some? && DecodeCs1WithAmount(codec, signature.value).Some?;
    var sawAmount, sawSig := false, false;
    pairs := [];
    var i := 0;
    HasNothing();
    while i < |query|
      invariant i <= |query|
      invariant pairs == Body(e, query[..i], false)
      invariant sawAmount == (!implied && Has(query[..i], "amount"))
      invariant sawSig == (signature.Some? && HasCertificate(query[..i]))
    {
      assert query[..i + 1] == query[..i] + [query[i]];
      BodySnoc(e, query[..i], query[i]);
      HasSnoc(query[..i], query[i]);
      var (key, value) := query[i];
      if key == "k1" {
      } else if key == "amount" {
        if !implied {
          pairs := pairs + [("amount", Decimal(amount))];
          sawAmount := true;
        }
      } else if key == "c" || key == "sig" {
        if signature.Some? && !sawSig {
          pairs := pairs + [("c", signature.value)];
          sawSig := true;
        }
      } else {
        pairs := pairs + [(key, value)];
      }
      i := i + 1;
    }
    assert query[..i] == query;
    if !sawAmount && !implied {
      pairs := pairs + [("amount", Decimal(amount))];
    }
    if signature.Some? && !sawSig {
      pairs := pairs + [("c", signature.value)];
    }
  }

  // ---- what the readers find afterwards ----

  lemma FirstConcat(a: Query, b: Query, key: string)
    ensures FirstParam(a + b, key) == if FirstParam(a, key).Some? then FirstParam(a, key) else FirstParam(b, key)
  {
    if a == [] {
      assert a + b == b;
    } else {
      assert (a + b)[1..] == a[1..] + b;
    }
  }

  lemma {:induction false} BodyReads(e: Edit, query: Query, seen: bool)
    ensures FirstParam(Body(e, query, seen), "k1") ==
            if Has(query, "k1") && e.k1.Some? then Some(Lower(e.k1.value)) else None
    ensures FirstParam(Body(e, query, seen), "amount") ==
            if Has(query, "amount") && !e.implied then Some(Decimal(e.amount)) else None
    ensures FirstParam(Body(e, query, seen), "c") ==
            if HasCertificate(query) && !seen then e.signature else None
    ensures FirstParam(Body(e, query, seen), "sig") == None
  {
    hide Lower, Decimal, Has, HasCertificate;
    HasNothing();
    if query != [] {
      var seen' := seen || IsCertificate(query[0].0);
      BodyReads(e, query[1..], seen');
      HasStep(query);
      var first, rest := Rewritten(e, query[0], seen), Body(e, query[1..], seen');
      FirstConcat(first, rest, "k1");
      FirstConcat(first, rest, "amount");
      FirstConcat(first, rest, "c");
      FirstConcat(first, rest, "sig");
    }
  }

  lemma RewriteReads(e: Edit, query: Query, key: string)
    requires key == "k1" || key == "amount" || key == "c" || key == "sig"
    ensures FirstParam(Rewrite(e, query), key) ==
            if key == "k1" then (if e.k1.Some? then Some(Lower(e.k1.value)) else None)
            else if key == "amount" then (if e.implied then None else Some(Decimal(e.amount)))
            else if key == "c" then e.signature else None
  {
    BodyReads(e, query, false);
    var k := if Has(query, "k1") then [] else K1Pair(e);
    var a := if Has(query, "amount") then [] else AmountPair(e);
    var c := if HasCertificate(query) then [] else CertificatePair(e);
    FirstConcat(Body(e, query, false), Missing(e, query), key);
    FirstConcat(k + a, c, key);
    FirstConcat(k, a, key);
  }

  // ---- no pair the rewrite owns is stale ----

  /** A pair is the new note's own, or none of the rewrite's business. */
  predicate IsCurrent(e: Edit, pair: (string, string)) {
    && (pair.0 == "k1" ==> [pair] == K1Pair(e))
    && (pair.0 == "amount" ==> [pair] == AmountPair(e))
    && (IsCertificate(pair.0) ==> [pair] == CertificatePair(e))
  }

  predicate AllCurrent(e: Edit, query: Query) {
    forall i | 0 <= i < |query| :: IsCurrent(e, query[i])
  }

  function Certificates(query: Query): Query {
    if query == [] then [] else (if IsCertificate(query[0].0) then [query[0]] else []) + Certificates(query[1..])
  }

  lemma AllCurrentConcat(e: Edit, a: Query, b: Query)
    requires AllCurrent(e, a) && AllCurrent(e, b)
    ensures AllCurrent(e, a + b)
  {
    hide IsCurrent;
  }

  lemma {:induction false} CertificatesConcat(a: Query, b: Query)
    ensures Certificates(a + b) == Certificates(a) + Certificates(b)
  {
    if a == [] {
      assert a + b == b;
    } else {
      assert (a + b)[1..] == a[1..] + b;
      CertificatesConcat(a[1..], b);
      var head := if IsCertificate(a[0].0) then [a[0]] else [];
      assert head + (Certificates(a[1..]) + Certificates(b)) == (head + Certificates(a[1..])) + Certificates(b);
    }
  }

  lemma RewrittenIsCurrent(e: Edit, pair: (string, string), seen: bool)
    ensures AllCurrent(e, Rewritten(e, pair, seen))
    ensures Certificates(Rewritten(e, pair, seen)) == if IsCertificate(pair.0) && !seen then CertificatePair(e) else []
  {
    hide Decimal, Lower;
    assert Certificates([]) == [];
    var r := Rewritten(e, pair, seen);
    if r != [] { assert r[1..] == []; }
  }

  lemma {:induction false} BodyIsCurrent(e: Edit, query: Query, seen: bool)
    ensures AllCurrent(e, Body(e, query, seen))
    ensures Certificates(Body(e, query, seen)) == if HasCertificate(query) && !seen then CertificatePair(e) else []
  {
    if query != [] {
      var seen' := seen || IsCertificate(query[0].0);
      var first, rest := Rewritten(e, query[0], seen), Body(e, query[1..], seen');
      BodyIsCurrent(e, query[1..], seen');
      HasStep(query);
      RewrittenIsCurrent(e, query[0], seen);
      hide AllCurrent, Certificates, Rewritten, HasCertificate, IsCertificate;
      AllCurrentConcat(e, first, rest);
      CertificatesConcat(first, rest);
    }
  }

  /** However often the query repeats a key, every `k1` and `amount` that is
      left is the new one, and the certificate is left exactly once. */
  lemma RewriteIsCurrent(e: Edit, query: Query)
    ensures AllCurrent(e, Rewrite(e, query)) && Certificates(Rewrite(e, query)) == CertificatePair(e)
  {
    var k := if Has(query, "k1") then [] else K1Pair(e);
    var a := if Has(query, "amount") then [] else AmountPair(e);
    var c := if HasCertificate(query) then [] else CertificatePair(e);
    BodyIsCurrent(e, query, false);
    RewrittenIsCurrent(e, ("k1", ""), false);
    RewrittenIsCurrent(e, ("amount", ""), false);
    RewrittenIsCurrent(e, ("c", ""), false);
    assert AllCurrent(e, []) && Certificates([]) == [];
    assert AllCurrent(e, k) && AllCurrent(e, a) && AllCurrent(e, c) && Certificates(k) == [] && Certificates(a) == []
        && Certificates(c) == c;
    hide AllCurrent, Certificates, Body, K1Pair, AmountPair, CertificatePair, HasCertificate, Has;
    AllCurrentConcat(e, k, a);
    AllCurrentConcat(e, k + a, c);
    AllCurrentConcat(e, Body(e, query, false), Missing(e, query));
    CertificatesConcat(k, a);
    CertificatesConcat(k + a, c);
    CertificatesConcat(Body(e, query, false), Missing(e, query));
  }

  /** The amount a rewritten note declares: what its certificate states, or
      what it was given. */
  lemma DeclaresTheAmount(codec: Codec, query: Query, e: Edit)
    requires e.amount <= U64_MAX && e == EditOf(codec, e.k1, e.amount, e.signature)
    ensures var cs1 := if e.signature.Some? then DecodeCs1WithAmount(codec, e.signature.value) else None;
            NoteDeclaredAmount(codec, Rewrite(e, query)) == Some(if cs1.Some? then cs1.value.amountMsat else e.amount)
  {
    RewriteReads(e, query, "amount");
    RewriteReads(e, query, "c");
    RewriteReads(e, query, "sig");
    DecimalRoundTrip(e.amount);
    assert IsDigit(Decimal(e.amount)[0]);
    hide Rewrite, FirstParam, DecodeCs1WithAmount;
  }

  /** After `with_new_k1` the note reads as the new one: its k1, its
      certificate or none, and the amount given or the one the certificate
      states. Nothing stale survives a repeated key. */
  lemma NewNoteReadsBack(codec: Codec, query: Query, k1: string, amount: nat, signature: Option<string>)
    requires amount <= U64_MAX
    ensures var e := EditOf(codec, Some(k1), amount, signature);
            var r := Rewrite(e, query);
            && NoteK1(r) == Some(Lower(k1))
            && NoteSignature(r) == signature
            && FirstParam(r, "sig") == None
            && AllCurrent(e, r) && Certificates(r) == CertificatePair(e)
            && var cs1 := if signature.Some? then DecodeCs1WithAmount(codec, signature.value) else None;
               NoteDeclaredAmount(codec, r) == Some(if cs1.Some? then cs1.value.amountMsat else amount)
  {
    var e := EditOf(codec, Some(k1), amount, signature);
    RewriteReads(e, query, "k1");
    RewriteReads(e, query, "c");
    RewriteReads(e, query, "sig");
    LowerIdempotent(k1);
    hide Rewrite, FirstParam, NoteDeclaredAmount, DecodeCs1WithAmount, AllCurrent, Certificates;
    RewriteIsCurrent(e, query);
    DeclaresTheAmount(codec, query, e);
  }

  /** `without_k1` leaves no secret behind, in any pair, and declares the same
      amount under the new certificate alone. */
  lemma TemplateHasNoSecret(codec: Codec, query: Query, amount: nat, signature: Option<string>)
    requires amount <= U64_MAX
    ensures var e := EditOf(codec, None, amount, signature);
            var r := Rewrite(e, query);
            && !Has(r, "k1") && NoteK1(r) == None && NoteSignature(r) == signature
            && AllCurrent(e, r) && Certificates(r) == CertificatePair(e)
            && var cs1 := if signature.Some? then DecodeCs1WithAmount(codec, signature.value) else None;
               NoteDeclaredAmount(codec, r) == Some(if cs1.Some? then cs1.value.amountMsat else amount)
  {
    var e := EditOf(codec, None, amount, signature);
    RewriteReads(e, query, "k1");
    RewriteReads(e, query, "c");
    RewriteReads(e, query, "sig");
    hide Rewrite, FirstParam, NoteDeclaredAmount, DecodeCs1WithAmount, Certificates;
    RewriteIsCurrent(e, query);
    DeclaresTheAmount(codec, query, e);
  }

  // ---- every other pair ----

  predicate IsOther(key: string) {
    key != "k1" && key != "amount" && !IsCertificate(key)
  }

  function Others(query: Query): Query {
    if query == [] then [] else (if IsOther(query[0].0) then [query[0]] else []) + Others(query[1..])
  }

  lemma {:induction false} OthersConcat(a: Query, b: Query)
    ensures Others(a + b) == Others(a) + Others(b)
  {
    if a == [] {
      assert a + b == b;
    } else {
      assert (a + b)[1..] == a[1..] + b;
      OthersConcat(a[1..], b);
      var head := if IsOther(a[0].0) then [a[0]] else [];
      assert head + (Others(a[1..]) + Others(b)) == (head + Others(a[1..])) + Others(b);
    }
  }

  lemma {:induction false} BodyKeepsOthers(e: Edit, query: Query, seen: bool)
    ensures Others(Body(e, query, seen)) == Others(query)
  {
    hide Lower, Decimal;
    if query != [] {
      var seen' := seen || IsCertificate(query[0].0);
      BodyKeepsOthers(e, query[1..], seen');
      var first := Rewritten(e, query[0], seen);
      OthersConcat(first, Body(e, query[1..], seen'));
      assert Others(first) == if IsOther(query[0].0) then [query[0]] else [];
    }
  }

  /** No pair the rewrite does not own is lost, added or moved past another. */
  lemma OthersKeepTheirOrder(e: Edit, query: Query)
    ensures Others(Rewrite(e, query)) == Others(query)
  {
    var k := if Has(query, "k1") then [] else K1Pair(e);
    var a := if Has(query, "amount") then [] else AmountPair(e);
    var c := if HasCertificate(query) then [] else CertificatePair(e);
    hide Has, HasCertificate, Decimal, Lower;
    OthersConcat(k + a, c);
    OthersConcat(k, a);
    assert Others(k) == [] && Others(a) == [] && Others(c) == [];
    BodyKeepsOthers(e, query, false);
    OthersConcat(Body(e, query, false), Missing(e, query));
  }

  // ---- where things go ----

  predicate AllOther(query: Query) {
    forall i | 0 <= i < |query| :: IsOther(query[i].0)
  }

  lemma {:induction false} OthersPass(e: Edit, query: Query, seen: bool)
    requires AllOther(query)
    ensures Body(e, query, seen) == query
    ensures !HasCertificate(query) && !Has(query, "k1") && !Has(query, "amount")
  {
    if query != [] {
      OthersPass(e, query[1..], seen);
      HasStep(query);
      assert query == [query[0]] + query[1..];
    }
  }

  /** Each owned pair is replaced where it stands, the certificate under its
      current name, and what the query lacked is appended in the order `k1`,
      `amount`, `c`. */
  lemma ReplacesInPlace(e: Edit, a: Query, pair: (string, string), b: Query)
    requires AllOther(a) && AllOther(b) && e.k1.Some?
    ensures var k1 := [("k1", Lower(e.k1.value))];
            var amount := if e.implied then [] else [("amount", Decimal(e.amount))];
            var c := if e.signature.Some? then [("c", e.signature.value)] else [];
            Rewrite(e, a + [pair] + b) ==
            match pair.0
            case "k1" => a + k1 + b + (amount + c)
            case "amount" => a + amount + b + (k1 + c)
            case "c" => a + c + b + (k1 + amount)
            case "sig" => a + c + b + (k1 + amount)
            case _ => a + [pair] + b + (k1 + amount + c)
  {
    hide Lower, Decimal, Has, HasCertificate, Body, AllOther;
    BodyConcat(e, a + [pair], b, false);
    BodySnoc(e, a, pair);
    OthersPass(e, a, false);
    OthersPass(e, b, IsCertificate(pair.0));
    HasSnoc(a, pair);
    HasConcat(a + [pair], b);
  }

  // ---- rewriting twice ----

  lemma {:induction false} BodyAbsorbs(e: Edit, f: Edit, query: Query, seen: bool)
    requires e.k1.Some? && f == e.(k1 := f.k1)
    ensures Body(f, Body(e, query, seen), seen) == Body(f, query, seen)
    ensures HasCertificate(Body(e, query, seen)) == (HasCertificate(query) && !seen && e.signature.Some?)
    ensures Has(Body(e, query, seen), "k1") == Has(query, "k1")
    ensures Has(Body(e, query, seen), "amount") == (Has(query, "amount") && !e.implied)
  {
    if query != [] {
      var seen' := seen || IsCertificate(query[0].0);
      var first, rest := Rewritten(e, query[0], seen), Body(e, query[1..], seen');
      BodyAbsorbs(e, f, query[1..], seen');
      HasStep(query);
      HasConcat(first, rest);
      BodyConcat(f, first, rest, seen);
      AbsorbFirst(e, f, query[0], seen);
      if e.signature.None? { WithoutCertificate(f, rest, seen || HasCertificate(first), seen'); }
    }
  }

  lemma AbsorbFirst(e: Edit, f: Edit, pair: (string, string), seen: bool)
    requires e.k1.Some? && f == e.(k1 := f.k1)
    ensures var first := Rewritten(e, pair, seen);
            && Body(f, first, seen) == Rewritten(f, pair, seen)
            && (HasCertificate(first) <==> IsCertificate(pair.0) && !seen && e.signature.Some?)
            && (Has(first, "k1") <==> pair.0 == "k1")
            && (Has(first, "amount") <==> pair.0 == "amount" && !e.implied)
  {
    var first := Rewritten(e, pair, seen);
    if first != [] {
      assert first[1..] == [];
      assert Body(f, first, seen) == Rewritten(f, first[0], seen) + [];
      LowerIdempotent(e.k1.value);
    }
  }

  /** Without a certificate to write, having seen one changes nothing. */
  lemma {:induction false} WithoutCertificate(f: Edit, query: Query, s: bool, t: bool)
    requires f.signature.None?
    ensures Body(f, query, s) == Body(f, query, t)
  {
    if query != [] {
      var c := IsCertificate(query[0].0);
      WithoutCertificate(f, query[1..], s || c, t || c);
    }
  }

  lemma AbsorbMissing(e: Edit, f: Edit, query: Query)
    requires e.k1.Some? && f == e.(k1 := f.k1)
    ensures Body(f, Missing(e, query), HasCertificate(query) && e.signature.Some?) == Missing(f, query)
    ensures HasCertificate(Missing(e, query)) == (!HasCertificate(query) && e.signature.Some?)
    ensures Has(Missing(e, query), "k1") == !Has(query, "k1")
    ensures Has(Missing(e, query), "amount") == (!Has(query, "amount") && !e.implied)
  {
    var k := if Has(query, "k1") then [] else K1Pair(e);
    var a := if Has(query, "amount") then [] else AmountPair(e);
    var c := if HasCertificate(query) then [] else CertificatePair(e);
    var seen := HasCertificate(query) && e.signature.Some?;
    HasNothing();
    hide Has, HasCertificate, Decimal, Lower;
    BodyConcat(f, k + a, c, seen);
    BodyConcat(f, k, a, seen);
    HasConcat(k + a, c);
    HasConcat(k, a);
    AbsorbFirst(e, f, ("k1", ""), seen);
    AbsorbFirst(e, f, ("amount", ""), seen);
    AbsorbFirst(e, f, ("c", ""), seen);
  }

  /** A second rewrite with the same amount and certificate sees through the
      first: rewriting is idempotent, a later k1 wins, and the template of a
      rewritten note is the template of the original. */
  lemma RewriteAbsorbs(e: Edit, f: Edit, query: Query)
    requires e.k1.Some? && f == e.(k1 := f.k1)
    ensures Rewrite(f, Rewrite(e, query)) == Rewrite(f, query)
  {
    hide Body, Has, HasCertificate, Lower, Decimal, K1Pair;
    var body, missing := Body(e, query, false), Missing(e, query);
    BodyAbsorbs(e, f, query, false);
    AbsorbMissing(e, f, query);
    BodyConcat(f, body, missing, false);
    HasConcat(body, missing);
    assert Missing(f, Rewrite(e, query)) == [];
  }
}
