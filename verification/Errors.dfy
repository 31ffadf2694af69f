// The error taxonomy (src/errors.rs): which failures carry the fresh secrets
// of a mutation, and what a SERVICE's refusal means.

module Errors {
  import opened Text

  datatype Error =
    | RequestRefused
    | ProtocolError
    | ServiceRejected(reason: string)
    | NotePending
    | NoteSpent(reason: string, newSecrets: seq<string>)
    | NoteUnknown(reason: string, newSecrets: seq<string>)
    | Unverifiable(newSecrets: seq<string>)
    | Ambiguous(newSecrets: seq<string>)

  const OUTPUT_IN_USE: string := "already in use"

  /** The variants with a place for secrets. */
  predicate Carries(e: Error) {
    e.Ambiguous? || e.Unverifiable? || e.NoteSpent? || e.NoteUnknown?
  }

  function WithSecrets(e: Error, secrets: seq<string>): Error {
    if Carries(e) then e.(newSecrets := secrets) else e
  }

  /** `Error::new_secrets`. */
  function SecretsIn(e: Error): seq<string> {
    if Carries(e) then e.newSecrets else []
  }

  function ClassifyNoteError(reason: string): Error {
    var lowered := Lower(reason);
    if lowered == "pending" then NotePending
    else if Contains(lowered, "spent") || Trim(lowered) == OUTPUT_IN_USE then NoteSpent(reason, [])
    else if Contains(lowered, "unknown") || Contains(lowered, "not found") then NoteUnknown(reason, [])
    else ServiceRejected(reason)
  }

  /** A reason LUD-25 allows for a k1 that is already dead. */
  predicate SaysDead(reason: string) {
    ClassifyNoteError(reason).NoteSpent? || ClassifyNoteError(reason).NoteUnknown?
  }

  /** Only a dead-note refusal keeps the secrets attached to it. */
  lemma RefusalCarriesIffDead(reason: string, secrets: seq<string>)
    ensures SecretsIn(WithSecrets(ClassifyNoteError(reason), secrets)) == if SaysDead(reason) then secrets else []
  {
  }

  /** Letter case never changes what a refusal means. */
  lemma ClassificationIgnoresCase(reason: string)
    ensures SaysDead(Lower(reason)) <==> SaysDead(reason)
    ensures ClassifyNoteError(Lower(reason)).NotePending? <==> ClassifyNoteError(reason).NotePending?
  {
    LowerIdempotent(reason);
  }

  lemma ContainedChar(s: string, pattern: string, k: nat)
    requires Contains(s, pattern) && k < |pattern|
    ensures pattern[k] in s
  {
    var i := ContainsAt(s, pattern);
    assert s[i + k] == pattern[k];
  }

  /** A dead-note word anywhere in a reason, in any case, makes it one LUD-25
      allows for a dead k1. */
  lemma DeadWordSaysDead(before: string, word: string, after: string)
    requires Lower(word) == "spent" || Lower(word) == "unknown" || Lower(word) == "not found"
    ensures SaysDead(before + word + after)
  {
    hide Lower, Contains, Trim;
    var lowered := Lower(before + word + after);
    LowerConcat(before, word);
    LowerConcat(before + word, after);
    ContainsMiddle(Lower(before), Lower(word), Lower(after));
    var k := if Lower(word) == "spent" then 0 else if Lower(word) == "unknown" then 3 else 1;
    ContainedChar(lowered, Lower(word), k);
    assert 's' !in "pending" && 'o' !in "pending";
  }

  /** A word standing somewhere in a reason. */
  ghost predicate Holds(s: string, word: string) {
    exists before: string, after: string :: s == before + word + after
  }

  lemma {:induction false} HoldsIff(s: string, word: string)
    ensures Contains(s, word) <==> Holds(s, word)
  {
    if Contains(s, word) {
      var i := ContainsAt(s, word);
      assert s == s[..i] + word + s[i + |word|..];
    }
    if Holds(s, word) {
      var before: string, after: string :| s == before + word + after;
      ContainsMiddle(before, word, after);
    }
  }

  /** "pending" in any case, and only that, is a melt still in flight. */
  lemma PendingIff(reason: string)
    ensures ClassifyNoteError(reason) == NotePending <==> Lower(reason) == "pending"
  {
  }

  /** LUD-25's own wording for a burned note, in any case and outer
      whitespace, says it is spent. */
  lemma AlreadyInUseIsSpent(reason: string)
    requires Lower(Trim(reason)) == "already in use"
    ensures ClassifyNoteError(reason) == NoteSpent(reason, [])
  {
    TrimOfLower(reason);
    hide Lower, Contains;
    if Lower(reason) == "pending" {
      TrimKeeps("pending");
    }
    assert |"pending"| != |"already in use"|;
  }

  lemma NotPending(s: string, word: string, k: nat)
    requires Contains(s, word) && k < |word| && (word[k] == 's' || word[k] == 'o')
    ensures s != "pending"
  {
    hide Contains;
    ContainedChar(s, word, k);
    assert 's' !in "pending" && 'o' !in "pending";
  }

  /** A note is spent exactly when the reason holds "spent" or is the fixed
      wording. */
  lemma SpentIff(reason: string)
    ensures ClassifyNoteError(reason) == NoteSpent(reason, []) <==>
            Holds(Lower(reason), "spent") || Lower(Trim(reason)) == "already in use"
  {
    hide Lower, Contains, Trim, Holds;
    TrimOfLower(reason);
    HoldsIff(Lower(reason), "spent");
    if Lower(Trim(reason)) == "already in use" { AlreadyInUseIsSpent(reason); }
    if Contains(Lower(reason), "spent") { NotPending(Lower(reason), "spent", 0); }
  }

  /** And unknown exactly when it holds "unknown" or "not found" and says
      neither of those. */
  lemma UnknownIff(reason: string)
    ensures ClassifyNoteError(reason) == NoteUnknown(reason, []) <==>
            && (Holds(Lower(reason), "unknown") || Holds(Lower(reason), "not found"))
            && !Holds(Lower(reason), "spent") && Lower(Trim(reason)) != "already in use"
  {
    hide Lower, Contains, Trim, Holds;
    TrimOfLower(reason);
    HoldsIff(Lower(reason), "spent");
    HoldsIff(Lower(reason), "unknown");
    HoldsIff(Lower(reason), "not found");
    if Contains(Lower(reason), "unknown") { NotPending(Lower(reason), "unknown", 4); }
    if Contains(Lower(reason), "not found") { NotPending(Lower(reason), "not found", 1); }
  }

  /** Everything else is the SERVICE's own refusal, with its reason as sent. */
  lemma RejectedIff(reason: string)
    ensures ClassifyNoteError(reason) == ServiceRejected(reason) <==>
            && Lower(reason) != "pending" && Lower(Trim(reason)) != "already in use"
            && !Holds(Lower(reason), "spent") && !Holds(Lower(reason), "unknown") && !Holds(Lower(reason), "not found")
  {
    PendingIff(reason);
    SpentIff(reason);
    UnknownIff(reason);
    hide Holds, Lower, Trim, Contains;
  }

  const OLDER_WORDING: string := "Output already in use."

  lemma OlderWordingLowered()
    ensures Lower(OLDER_WORDING) == "output already in use."
  {
    hide Lower;
    var lowered := "output already in use.";
    assert forall i | 0 <= i < |lowered| :: LowerChar(OLDER_WORDING[i]) == lowered[i];
    assert Lower(OLDER_WORDING) == lowered;
  }

  lemma NotContained(s: string, pattern: string, k: nat)
    requires k < |pattern| && pattern[k] !in s
    ensures !Contains(s, pattern)
  {
    if Contains(s, pattern) {
      var i := ContainsAt(s, pattern);
    }
  }

  lemma NotContainedEarly(head: string, tail: string, pattern: string)
    requires pattern != [] && pattern[0] !in head && |tail| < |pattern|
    ensures !Contains(head + tail, pattern)
  {
    if Contains(head + tail, pattern) {
      var i := ContainsAt(head + tail, pattern);
    }
  }

  lemma RejectedWhen(reason: string, lowered: string)
    requires Lower(reason) == lowered && lowered != "pending" && Trim(lowered) != OUTPUT_IN_USE
    requires !Contains(lowered, "spent") && !Contains(lowered, "unknown") && !Contains(lowered, "not found")
    ensures ClassifyNoteError(reason) == ServiceRejected(reason)
  {
  }

  lemma OlderWordingIsNotSpent()
    ensures !Contains("output already in use.", "spent")
  {
    hide Contains;
    NotContainedEarly("output already in u", "se.", "spent");
    assert "output already in use." == "output already in u" + "se.";
  }

  lemma OlderWordingIsNotUnknown()
    ensures !Contains("output already in use.", "unknown")
    ensures !Contains("output already in use.", "not found")
  {
    hide Contains;
    NotContained("output already in use.", "unknown", 2);
    NotContained("output already in use.", "not found", 4);
  }

  lemma TrimKeeps(s: string)
    requires s != [] && !IsWhitespace(s[0]) && !IsWhitespace(s[|s| - 1])
    ensures Trim(s) == s
  {
  }

  /** lnurl-mint's older wording names the output, and is read as a plain
      refusal: it carries nothing. */
  lemma OlderWordingIsBare()
    ensures ClassifyNoteError(OLDER_WORDING) == ServiceRejected(OLDER_WORDING) && !SaysDead(OLDER_WORDING)
  {
    hide Contains, Lower, Trim, ClassifyNoteError;
    OlderWordingLowered();
    OlderWordingIsNotSpent();
    OlderWordingIsNotUnknown();
    TrimKeeps("output already in use.");
    assert |OUTPUT_IN_USE| == 14;
    RejectedWhen(OLDER_WORDING, "output already in use.");
  }
}
