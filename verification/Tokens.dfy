/**
 Write tokens.  A token is a hash of the asking address under the current secret; it is
 honoured under the current and the previous secret.  Secrets are replaced at the end of
 a periodic call, at intervals of at least fifteen minutes.
 */
module Tokens {
  import opened Ids
  import opened Tables

  const TOKEN_SIZE: nat := 8
  const ROTATION: int := 900

  type Secret = s: seq<Byte> | |s| == 8 witness [0, 0, 0, 0, 0, 0, 0, 0]
  type Token = s: seq<Byte> | |s| == 8 witness [0, 0, 0, 0, 0, 0, 0, 0]

  /** The keyed hash, of which nothing is known but that it is a function. */
  type Hash = (Secret, seq<Byte>, nat) -> Token

  datatype Secrets = Secrets(secret: Secret, oldSecret: Secret, rotateTime: int)

  /** One periodic call: when it happens, and the random values it would use to rotate. */
  datatype Call = Call(now: int, newSecret: Secret, random: nat)

  function TokenFor(hash: Hash, s: Secrets, addr: Address): Token
  {
    hash(s.secret, addr.ip, addr.port)
  }

  predicate Accepts(hash: Hash, s: Secrets, token: seq<Byte>, addr: Address)
  {
    || token == hash(s.secret, addr.ip, addr.port)
    || token == hash(s.oldSecret, addr.ip, addr.port)
  }

  function Rotated(s: Secrets, c: Call): Secrets
  {
    Secrets(c.newSecret, s.secret, c.now + ROTATION + c.random % 1800)
  }

  /** The secrets left by a periodic call. */
  function AfterCall(s: Secrets, c: Call): Secrets
  {
    if c.now >= s.rotateTime then Rotated(s, c) else s
  }

  /** The secrets with which call number `i` of a run does its work. */
  function SecretsAt(s: Secrets, calls: seq<Call>, i: nat): Secrets
    requires i <= |calls|
  {
    if i == 0 then s else AfterCall(SecretsAt(s, calls, i - 1), calls[i - 1])
  }

  ghost predicate TimeMovesOn(calls: seq<Call>)
  {
    forall i, j | 0 <= i < j < |calls| :: calls[i].now <= calls[j].now
  }

  /** The secret of call `i` is still the current one, or it is the previous one and stays so for fifteen minutes. */
  lemma {:induction false} SecretSurvives(s: Secrets, calls: seq<Call>, i: nat, j: nat)
    requires TimeMovesOn(calls) && i <= j < |calls| && calls[j].now < calls[i].now + ROTATION
    ensures var mine, at := SecretsAt(s, calls, i).secret, SecretsAt(s, calls, j);
            at.secret == mine || (at.oldSecret == mine && at.rotateTime >= calls[i].now + ROTATION)
    decreases j
  {
    if i < j {
      assert calls[i].now <= calls[j - 1].now || i == j - 1;
      SecretSurvives(s, calls, i, j - 1);
    }
  }

  /** A token handed out by one call is honoured by every call in the fifteen minutes after it. */
  lemma {:induction false} TokenHonoured(hash: Hash, s: Secrets, calls: seq<Call>, i: nat, j: nat, addr: Address)
    requires TimeMovesOn(calls) && i <= j < |calls| && calls[j].now < calls[i].now + ROTATION
    ensures Accepts(hash, SecretsAt(s, calls, j), TokenFor(hash, SecretsAt(s, calls, i), addr), addr)
  {
    SecretSurvives(s, calls, i, j);
  }

  /** The number of rotations between two calls. */
  function Rotations(s: Secrets, calls: seq<Call>, i: nat, j: nat): nat
    requires i <= j <= |calls|
    decreases j
  {
    if i == j then 0
    else Rotations(s, calls, i, j - 1) + if calls[j - 1].now >= SecretsAt(s, calls, j - 1).rotateTime then 1 else 0
  }

  /** Every secret drawn is new. */
  ghost predicate FreshSecrets(s: Secrets, calls: seq<Call>)
  {
    forall i, j | 0 <= i <= j < |calls| :: SecretsAt(s, calls, i).secret != calls[j].newSecret
  }

  lemma {:induction false} SecretByRotations(s: Secrets, calls: seq<Call>, i: nat, j: nat)
    requires FreshSecrets(s, calls) && i <= j <= |calls| && i < |calls|
    ensures var mine, at := SecretsAt(s, calls, i).secret, SecretsAt(s, calls, j);
            && (at.secret == mine <==> Rotations(s, calls, i, j) == 0)
            && (Rotations(s, calls, i, j) >= 1 ==> (at.oldSecret == mine <==> Rotations(s, calls, i, j) == 1))
    decreases j
  {
    if i < j {
      SecretByRotations(s, calls, i, j - 1);
      assert SecretsAt(s, calls, i).secret != calls[j - 1].newSecret;
    }
  }

  /** With a hash that separates secrets, a token lives exactly until the second rotation after it. */
  lemma {:induction false} TokenLifetime(hash: Hash, s: Secrets, calls: seq<Call>, i: nat, j: nat, addr: Address)
    requires FreshSecrets(s, calls) && i <= j <= |calls| && i < |calls|
    requires forall a: Secret, b: Secret | hash(a, addr.ip, addr.port) == hash(b, addr.ip, addr.port) :: a == b
    ensures Accepts(hash, SecretsAt(s, calls, j), TokenFor(hash, SecretsAt(s, calls, i), addr), addr) <==>
            Rotations(s, calls, i, j) <= 1
  {
    SecretByRotations(s, calls, i, j);
  }

  // ----- secrets do not last -----

  lemma {:induction false} NextRotationSoon(s: Secrets, calls: seq<Call>, i: nat)
    requires TimeMovesOn(calls) && i < |calls| && s.rotateTime <= calls[0].now + 2699
    ensures SecretsAt(s, calls, i + 1).rotateTime <= calls[i].now + 2699
  {
    if i > 0 {
      NextRotationSoon(s, calls, i - 1);
      assert calls[i - 1].now <= calls[i].now;
    }
  }

  lemma {:induction false} RotationsAdd(s: Secrets, calls: seq<Call>, i: nat, j: nat, k: nat)
    requires i <= j <= k <= |calls|
    ensures Rotations(s, calls, i, k) == Rotations(s, calls, i, j) + Rotations(s, calls, j, k)
    decreases k
  {
    if j < k {
      RotationsAdd(s, calls, i, j, k - 1);
    }
  }

  lemma {:induction false} NoRotationNoChange(s: Secrets, calls: seq<Call>, i: nat, j: nat)
    requires i <= j <= |calls| && Rotations(s, calls, i, j) == 0
    ensures SecretsAt(s, calls, j) == SecretsAt(s, calls, i)
    decreases j
  {
    if i < j {
      NoRotationNoChange(s, calls, i, j - 1);
    }
  }

  lemma {:induction false} RotatesWhenDue(s: Secrets, calls: seq<Call>, i: nat, j: nat)
    requires i <= j < |calls| && calls[j].now >= SecretsAt(s, calls, i).rotateTime
    ensures Rotations(s, calls, i, j + 1) >= 1
  {
    if Rotations(s, calls, i, j) == 0 {
      NoRotationNoChange(s, calls, i, j);
    }
  }

  lemma {:induction false} TwoRotations(s: Secrets, calls: seq<Call>, i: nat, j: nat, k: nat)
    requires TimeMovesOn(calls) && i < j < k < |calls| && s.rotateTime <= calls[0].now + 2699
    requires calls[j].now >= calls[i].now + 2699 && calls[k].now >= calls[j].now + 2699
    ensures Rotations(s, calls, i, k + 1) >= 2
  {
    NextRotationSoon(s, calls, i);
    RotatesWhenDue(s, calls, i + 1, j);
    NextRotationSoon(s, calls, j);
    RotatesWhenDue(s, calls, j + 1, k);
    RotationsAdd(s, calls, i + 1, j + 1, k + 1);
    RotationsAdd(s, calls, i, i + 1, k + 1);
  }

  /** After two calls, each 2699 s or more after what came before, a token is no longer honoured. */
  lemma {:induction false} TokenExpires(hash: Hash, s: Secrets, calls: seq<Call>, i: nat, j: nat, k: nat, addr: Address)
    requires TimeMovesOn(calls) && FreshSecrets(s, calls) && i < j < k < |calls| && s.rotateTime <= calls[0].now + 2699
    requires calls[j].now >= calls[i].now + 2699 && calls[k].now >= calls[j].now + 2699
    requires forall a: Secret, b: Secret | hash(a, addr.ip, addr.port) == hash(b, addr.ip, addr.port) :: a == b
    ensures !Accepts(hash, SecretsAt(s, calls, k + 1), TokenFor(hash, SecretsAt(s, calls, i), addr), addr)
  {
    TwoRotations(s, calls, i, j, k);
    TokenLifetime(hash, s, calls, i, k + 1, addr);
  }

  class TokenServer {
    const hash: Hash
    var secret: Secret
    var oldSecret: Secret
    var rotateTime: int

    ghost function State(): Secrets
      reads this
    {
      Secrets(secret, oldSecret, rotateTime)
    }

    /** Starts from a zero secret and rotates at once. */
    constructor (hash: Hash, now: int, newSecret: Secret, random: nat)
      ensures this.hash == hash && secret == newSecret && now + 900 <= rotateTime <= now + 2699
    {
      this.hash := hash;
      secret, oldSecret, rotateTime := [0, 0, 0, 0, 0, 0, 0, 0], [0, 0, 0, 0, 0, 0, 0, 0], 0;
      new;
      RotateSecrets(now, newSecret, random);
    }

    method RotateSecrets(now: int, newSecret: Secret, random: nat)
      modifies this
      ensures State() == Rotated(old(State()), Call(now, newSecret, random))
      ensures secret == newSecret && oldSecret == old(secret) && now + 900 <= rotateTime <= now + 2699
    {
      rotateTime := now + 900 + random % 1800;
      oldSecret := secret;
      secret := newSecret;
    }

    method MakeToken(addr: Address, previous: bool) returns (t: Token)
      ensures !previous ==> t == TokenFor(hash, State(), addr)
      ensures previous ==> t == hash(oldSecret, addr.ip, addr.port)
    {
      t := hash(if previous then oldSecret else secret, addr.ip, addr.port);
    }

    method TokenMatch(token: seq<Byte>, addr: Address) returns (ok: bool)
      ensures ok <==> Accepts(hash, State(), token, addr)
    {
      if |token| != TOKEN_SIZE {
        return false;
      }
      var t := MakeToken(addr, false);
      if t == token {
        return true;
      }
      t := MakeToken(addr, true);
      if t == token {
        return true;
      }
      return false;
    }

    /** What a periodic call does after handling its packet. */
    method EndOfCall(c: Call)
      modifies this
      ensures State() == AfterCall(old(State()), c)
      ensures c.now < old(rotateTime) ==> State() == old(State())
      ensures c.now >= old(rotateTime) ==> secret == c.newSecret && oldSecret == old(secret) && c.now + 900 <= rotateTime <= c.now + 2699
    {
      if c.now >= rotateTime {
        RotateSecrets(c.now, c.newSecret, c.random);
      }
    }
  }
}
