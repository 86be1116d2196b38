/** The coinflip reveal: the frontend decodes the registers of the bet box and recomputes
    the outcome the backend computes from the original secret. The hash, blake2b256, is a
    parameter. */
module Reveal {
  import opened Wrappers
  import opened Bits
  import opened Vlq
  import opened IntCodec
  import opened CollByte

  type Digest = d: seq<Byte> | |d| == 32 witness seq(32, _ => 0)

  type Hash = seq<Byte> -> Digest

  // ----- Backend: rng_module -----

  function ComputeRng(hash: Hash, block: seq<Byte>, secret: seq<Byte>): int {
    hash(block + secret)[0] % 2
  }

  datatype CommitError = SecretLength | BadChoice

  function GenerateCommit(hash: Hash, secret: seq<Byte>, choice: int): Result<Digest, CommitError> {
    if |secret| != 8 then Err(SecretLength)
    else if choice != 0 && choice != 1 then Err(BadChoice)
    else Ok(hash(secret + [choice]))
  }

  predicate VerifyCommit(hash: Hash, commit: seq<Byte>, secret: seq<Byte>, choice: int) {
    |secret| == 8 && (choice == 0 || choice == 1) && GenerateCommit(hash, secret, choice) == Ok(commit)
  }

  // ----- Frontend: buildRevealTx -----

  datatype RevealError = MissingSecret | MissingChoice

  datatype Payout = Payout(playerWins: bool, amount: nat)

  /** Values and registers as fetched; an empty register text counts as missing. */
  function BuildReveal(hash: Hash, block: seq<Byte>, r9: seq<Byte>, r7: seq<Byte>, bet: nat)
    : Result<Payout, RevealError>
  {
    if r9 == [] then Err(MissingSecret)
    else if r7 == [] then Err(MissingChoice)
    else
      var flip := hash(block + FrontendDecode(r9))[0] % 2;
      var wins := flip == FrontendDecodeInt(r7);
      Ok(Payout(wins, if wins then bet * 97 / 50 else bet))
  }

  function RefundAmount(bet: nat): nat {
    bet - bet / 50
  }

  /** The register holds the secret, tagged by an encoder or untagged by the node. */
  predicate HoldsSecret(r9: seq<Byte>, secret: seq<Byte>) {
    r9 == SerializeTagged(secret) || (r9 == SerializeUntagged(secret) && |secret| != 1)
  }

  /** Whatever form R9 takes, the reveal reaches the backend's outcome on the original
      secret; a win pays 97/50 of the bet rounded down, a loss pays the bet to the house. */
  lemma RevealMatchesBackend(
      hash: Hash, block: seq<Byte>, r9: seq<Byte>, secret: seq<Byte>, choice: int, bet: nat)
    requires HoldsSecret(r9, secret) && |secret| < 0x8000_0000 && IsInt32(choice)
    ensures
      var r := BuildReveal(hash, block, r9, SdkSerializeInt(choice), bet);
      && r.Ok?
      && (r.value.playerWins <==> ComputeRng(hash, block, secret) == choice)
      && (r.value.playerWins ==> 50 * r.value.amount <= 97 * bet < 50 * r.value.amount + 50)
      && (!r.value.playerWins ==> r.value.amount == bet)
  {
    var r7 := SdkSerializeInt(choice);
    assert r7 + [] == r7;
    IntDecodersInvert(choice, []);
    if r9 == SerializeTagged(secret) {
      DecodersReadTagged(secret);
    } else {
      DecodersReadUntaggedIff(secret);
    }
  }

  /** A one-byte secret in untagged form is hashed as if it were empty. */
  lemma OneByteSecretLost(hash: Hash, block: seq<Byte>, secret: seq<Byte>, r7: seq<Byte>, bet: nat)
    requires |secret| == 1 && r7 != []
    ensures BuildReveal(hash, block, SerializeUntagged(secret), r7, bet).Ok?
    ensures BuildReveal(hash, block, SerializeUntagged(secret), r7, bet).value.playerWins
            <==> ComputeRng(hash, block, []) == FrontendDecodeInt(r7)
  {
    OneByteLost(secret);
  }

  /** A commitment binds: whatever verifies against the commitment to (secret, choice) is
      that secret and choice, unless the two inputs collide under the hash. */
  lemma CommitBinds(hash: Hash, secret: seq<Byte>, choice: int, secret': seq<Byte>, choice': int)
    requires GenerateCommit(hash, secret, choice).Ok?
    ensures VerifyCommit(hash, GenerateCommit(hash, secret, choice).value, secret, choice)
    ensures VerifyCommit(hash, GenerateCommit(hash, secret, choice).value, secret', choice') ==>
              || (secret' == secret && choice' == choice)
              || (secret + [choice] != secret' + [choice'] && hash(secret + [choice]) == hash(secret' + [choice']))
  {
    if VerifyCommit(hash, GenerateCommit(hash, secret, choice).value, secret', choice') {
      var a, b := secret + [choice], secret' + [choice'];
      if a == b {
        assert secret == a[..8] == b[..8] == secret';
        assert choice == a[8] == b[8] == choice';
      }
    }
  }

  /** Refund and win shares of a bet: the house keeps 3% of the doubled stake on a win and
      2% of the stake on a refund, rounded in its favour and against it respectively. */
  lemma PayoutShares(bet: nat)
    ensures 2 * bet - bet * 97 / 50 == (3 * bet + 49) / 50
    ensures 50 * RefundAmount(bet) >= 49 * bet > 50 * RefundAmount(bet) - 50
  {
  }

  // ----- What is hashed and what is refused -----

  /** The outcome is the parity of the first byte of the hash of the block id followed by the
      secret. */
  lemma ComputeRngMeaning(hash: Hash, block: seq<Byte>, secret: seq<Byte>, bytes: seq<Byte>)
    requires bytes == block + secret
    ensures ComputeRng(hash, block, secret) == 1 <==> hash(bytes)[0] % 2 == 1
    ensures ComputeRng(hash, block, secret) == 0 <==> hash(bytes)[0] % 2 == 0
  {
  }

  /** A commitment exists exactly for an 8-byte secret and a choice of 0 or 1: the hash of the
      secret and one choice byte. */
  lemma CommitIff(hash: Hash, secret: seq<Byte>, choice: int)
    ensures GenerateCommit(hash, secret, choice).Ok? <==> |secret| == 8 && 0 <= choice <= 1
    ensures |secret| != 8 ==> GenerateCommit(hash, secret, choice) == Err(SecretLength)
    ensures |secret| == 8 && !(0 <= choice <= 1) ==> GenerateCommit(hash, secret, choice) == Err(BadChoice)
    ensures GenerateCommit(hash, secret, choice).Ok? ==>
              GenerateCommit(hash, secret, choice).value == hash(secret + [choice])
  {
  }

  /** A commitment is accepted exactly if it is the one made for that secret and choice. */
  lemma VerifyIff(hash: Hash, commit: seq<Byte>, secret: seq<Byte>, choice: int)
    ensures VerifyCommit(hash, commit, secret, choice) <==>
              |secret| == 8 && 0 <= choice <= 1 && commit == hash(secret + [choice])
  {
  }

  /** The reveal needs both registers. */
  lemma RevealRefusals(hash: Hash, block: seq<Byte>, r9: seq<Byte>, r7: seq<Byte>, bet: nat)
    ensures BuildReveal(hash, block, r9, r7, bet).Ok? <==> r9 != [] && r7 != []
    ensures r9 == [] ==> BuildReveal(hash, block, r9, r7, bet) == Err(MissingSecret)
    ensures r9 != [] && r7 == [] ==> BuildReveal(hash, block, r9, r7, bet) == Err(MissingChoice)
  {
  }
}
